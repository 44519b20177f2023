/**
 BIP32 / SLIP-0010 derivation paths (crates/qfc-wallet-types/src/hd_path.rs): the
 text form, its parser, and what exactly the parser accepts.
 */
module HdPath {
  import opened Bytes
  import opened Results

  const HALF := 0x8000_0000

  type U32 = n: nat | n < 0x1_0000_0000

  datatype Segment = Normal(index: U32) | Hardened(index: U32) {

    /** The stored index with the top bit set for hardened segments. */
    function ChildIndex(): U32 {
      if Hardened? && index < HALF then index + HALF else index
    }

    predicate InRange() {
      index < HALF
    }
  }

  type Path = seq<Segment>

  datatype ParseError = EmptyString | BadHead | EmptySegment | NonNumeric | TooLarge

  ghost predicate AllInRange(p: Path) {
    forall i :: 0 <= i < |p| ==> p[i].InRange()
  }

  /**
   The derivation index has the low bits of the segment's index, and the top bit if and
   only if the segment is hardened or its index has it already.
   */
  lemma ChildIndexBits(a: Segment)
    ensures a.ChildIndex() % 0x8000_0000 == a.index % 0x8000_0000
    ensures a.ChildIndex() >= 0x8000_0000 <==> a.Hardened? || a.index >= 0x8000_0000
  {
  }

  /** Two segments derive the same child exactly when their low bits and their top bit agree. */
  lemma ChildIndexExactly(a: Segment, b: Segment)
    ensures a.ChildIndex() == b.ChildIndex()
            <==> a.index % HALF == b.index % HALF
                 && ((a.Hardened? || !a.InRange()) <==> (b.Hardened? || !b.InRange()))
    ensures a.InRange() && b.InRange() ==> (a.ChildIndex() == b.ChildIndex() <==> a == b)
  {
  }

  // ------------------------------------------------------------ decimal digits

  predicate IsDigit(c: char) {
    '0' <= c <= '9'
  }

  function DigitChar(d: nat): (c: char)
    requires d < 10
    ensures IsDigit(c) && DigitValue(c) == d
  {
    '0' + d as char
  }

  function DigitValue(c: char): (d: nat)
    requires IsDigit(c)
    ensures d < 10
  {
    (c - '0') as nat
  }

  predicate AllDigits(s: string) {
    forall i :: 0 <= i < |s| ==> IsDigit(s[i])
  }

  /** The shortest decimal numeral of n. */
  function Decimal(n: nat): (s: string)
    ensures s != "" && AllDigits(s)
  {
    if n < 10 then [DigitChar(n)] else Decimal(n / 10) + [DigitChar(n % 10)]
  }

  function Value(s: string): nat
    requires AllDigits(s)
  {
    if s == "" then 0 else 10 * Value(s[..|s| - 1]) + DigitValue(s[|s| - 1])
  }

  function ZeroDigits(k: nat): (s: string)
    ensures |s| == k && AllDigits(s)
  {
    seq(k, _ => '0')
  }

  lemma {:induction false} ValueOfPadded(k: nat, n: nat)
    ensures Value(ZeroDigits(k) + Decimal(n)) == n
  {
    var s := ZeroDigits(k) + Decimal(n);
    if n < 10 {
      assert s[..|s| - 1] == ZeroDigits(k);
      ValueOfZeros(k);
    } else {
      ValueOfPadded(k, n / 10);
      assert s[..|s| - 1] == ZeroDigits(k) + Decimal(n / 10);
    }
  }

  lemma {:induction false} ValueOfZeros(k: nat)
    ensures Value(ZeroDigits(k)) == 0
  {
    if k > 0 {
      ValueOfZeros(k - 1);
      ZeroDigitsStep(k - 1);
      assert ZeroDigits(k)[..k - 1] == ZeroDigits(k - 1);
    }
  }

  /** Every numeral is the shortest one behind some zeros. */
  lemma {:induction false} NumeralShape(s: string) returns (k: nat)
    requires s != "" && AllDigits(s)
    ensures s == ZeroDigits(k) + Decimal(Value(s))
  {
    hide ZeroDigits, DigitChar, DigitValue;
    var n := |s| - 1;
    var rest, d := s[..n], DigitValue(s[n]);
    assert s == rest + [s[n]];
    DigitOfValue(s[n]);
    if Value(rest) == 0 {
      k := n;
      ZeroNumeral(rest);
    } else {
      k := NumeralShape(rest);
      DecimalStep(Value(rest), d);
      assert ZeroDigits(k) + Decimal(Value(rest)) + [s[n]] == ZeroDigits(k) + (Decimal(Value(rest)) + [s[n]]);
    }
  }

  lemma DigitOfValue(c: char)
    requires IsDigit(c)
    ensures DigitChar(DigitValue(c)) == c
  {
  }

  lemma DecimalStep(n: nat, d: nat)
    requires n > 0 && d < 10
    ensures Decimal(10 * n + d) == Decimal(n) + [DigitChar(d)]
  {
  }

  lemma {:induction false} ZeroNumeral(s: string)
    requires AllDigits(s) && Value(s) == 0
    ensures s == ZeroDigits(|s|)
  {
    hide ZeroDigits, DigitValue;
    if s == "" {
      assert ZeroDigits(0) == "";
    } else {
      var n := |s| - 1;
      ZeroNumeral(s[..n]);
      ZeroDigit(s[n]);
      ZeroDigitsStep(n);
      assert s == s[..n] + [s[n]];
    }
  }

  lemma ZeroDigit(c: char)
    requires IsDigit(c) && DigitValue(c) == 0
    ensures c == '0'
  {
  }

  lemma ZeroDigitsStep(k: nat)
    ensures ZeroDigits(k + 1) == ZeroDigits(k) + "0"
  {
  }

  /** `u32::from_str`: an optional plus sign, then digits only, below 2^32. */
  function ParseU32(s: string): Option<U32> {
    var digits := if s != "" && s[0] == '+' then s[1..] else s;
    if digits == "" || !AllDigits(digits) || Value(digits) >= 0x1_0000_0000 then None else Some(Value(digits))
  }

  // ------------------------------------------------------------ segments

  predicate IsMark(c: char) {
    c == '\'' || c == 'h' || c == 'H'
  }

  function PrintSegment(seg: Segment): string {
    Decimal(seg.index) + if seg.Hardened? then "'" else ""
  }

  function ParseSegment(raw: string): (r: Result<Segment, ParseError>) {
    if raw == "" then Err(EmptySegment)
    else
      var hardened := IsMark(raw[|raw| - 1]);
      var digits := if hardened then raw[..|raw| - 1] else raw;
      var value := ParseU32(digits);
      if value.None? then Err(NonNumeric)
      else if value.value >= HALF then Err(TooLarge)
      else Ok(if hardened then Hardened(value.value) else Normal(value.value))
  }

  /** The ways to write a segment: optional plus sign, leading zeros, one of three hardening marks. */
  ghost predicate Spells(raw: string, seg: Segment) {
    exists plus: bool, k: nat, mark: string ::
      raw == Spelling(plus, k, seg.index, mark) && MarkFits(mark, seg)
  }

  predicate MarkFits(mark: string, seg: Segment) {
    if seg.Hardened? then mark in {"'", "h", "H"} else mark == ""
  }

  function Spelling(plus: bool, k: nat, index: nat, mark: string): string {
    Signed(plus, ZeroDigits(k) + Decimal(index)) + mark
  }

  function Signed(plus: bool, numeral: string): string {
    if plus then "+" + numeral else numeral
  }

  lemma SignedParses(plus: bool, k: nat, n: nat)
    ensures ParseU32(Signed(plus, ZeroDigits(k) + Decimal(n))) == if n < 0x1_0000_0000 then Some(n) else None
  {
    hide Decimal, Value, ZeroDigits;
    var numeral := ZeroDigits(k) + Decimal(n);
    ValueOfPadded(k, n);
    assert AllDigits(numeral) && numeral != "";
    if plus {
      assert ("+" + numeral)[1..] == numeral;
    } else {
      assert IsDigit(numeral[0]);
    }
  }

  lemma ParsedIsSigned(s: string) returns (plus: bool, k: nat)
    requires ParseU32(s).Some?
    ensures s == Signed(plus, ZeroDigits(k) + Decimal(ParseU32(s).value))
  {
    hide Decimal, Value, ZeroDigits;
    plus := s != "" && s[0] == '+';
    var digits := if plus then s[1..] else s;
    k := NumeralShape(digits);
    assert plus ==> s == "+" + digits;
  }

  lemma SignedEndsInDigit(plus: bool, k: nat, n: nat)
    ensures var s := Signed(plus, ZeroDigits(k) + Decimal(n)); s != "" && !IsMark(s[|s| - 1])
  {
    hide Decimal, ZeroDigits;
    var s := Signed(plus, ZeroDigits(k) + Decimal(n));
    assert s[|s| - 1] == Decimal(n)[|Decimal(n)| - 1];
    assert IsDigit(Decimal(n)[|Decimal(n)| - 1]);
  }

  lemma SpelledParses(plus: bool, k: nat, seg: Segment, mark: string)
    requires MarkFits(mark, seg)
    ensures ParseSegment(Spelling(plus, k, seg.index, mark)) == if seg.InRange() then Ok(seg) else Err(TooLarge)
  {
    hide Decimal, ZeroDigits, Signed, ParseU32;
    var signed := Signed(plus, ZeroDigits(k) + Decimal(seg.index));
    var raw := Spelling(plus, k, seg.index, mark);
    SignedParses(plus, k, seg.index);
    SignedEndsInDigit(plus, k, seg.index);
    if seg.Hardened? {
      assert raw[..|raw| - 1] == signed && raw[|raw| - 1] == mark[0];
    } else {
      assert raw == signed;
    }
  }

  lemma ParsedIsSpelled(raw: string, seg: Segment)
    requires ParseSegment(raw) == Ok(seg)
    ensures seg.InRange() && Spells(raw, seg)
  {
    hide Decimal, ZeroDigits, Signed, ParseU32;
    var hardened := IsMark(raw[|raw| - 1]);
    var signed := if hardened then raw[..|raw| - 1] else raw;
    var mark := if hardened then [raw[|raw| - 1]] else "";
    var plus, k := ParsedIsSigned(signed);
    assert raw == signed + mark;
    assert raw == Spelling(plus, k, seg.index, mark) && MarkFits(mark, seg);
  }

  /** The parser accepts exactly the spellings of in-range segments. */
  lemma SegmentExactly(raw: string, seg: Segment)
    ensures ParseSegment(raw) == Ok(seg) <==> seg.InRange() && Spells(raw, seg)
  {
    hide ParseSegment, Spelling;
    if ParseSegment(raw) == Ok(seg) {
      ParsedIsSpelled(raw, seg);
    }
    if seg.InRange() && Spells(raw, seg) {
      var plus, k, mark :| raw == Spelling(plus, k, seg.index, mark) && MarkFits(mark, seg);
      SpelledParses(plus, k, seg, mark);
    }
  }

  lemma PrintedParses(seg: Segment)
    ensures ParseSegment(PrintSegment(seg)) == if seg.InRange() then Ok(seg) else Err(TooLarge)
  {
    hide ParseSegment, Decimal;
    var mark := if seg.Hardened? then "'" else "";
    SpelledParses(false, 0, seg, mark);
    assert ZeroDigits(0) + Decimal(seg.index) == Decimal(seg.index);
    assert Decimal(seg.index) + "" == Decimal(seg.index);
    assert PrintSegment(seg) == Spelling(false, 0, seg.index, mark);
  }

  // ------------------------------------------------------------ splitting at slashes

  predicate NoSlash(s: string) {
    '/' !in s
  }

  function Split(s: string): (parts: seq<string>)
    ensures parts != []
  {
    if s == "" then [""]
    else
      var rest := Split(s[1..]);
      if s[0] == '/' then [""] + rest else [[s[0]] + rest[0]] + rest[1..]
  }

  /** Each part behind its slash. */
  function Tail(parts: seq<string>): string {
    if parts == [] then "" else "/" + parts[0] + Tail(parts[1..])
  }

  lemma {:induction false} SplitOfJoined(head: string, parts: seq<string>)
    requires NoSlash(head) && forall i :: 0 <= i < |parts| ==> NoSlash(parts[i])
    ensures Split(head + Tail(parts)) == [head] + parts
    decreases |parts|, |head|
  {
    var s := head + Tail(parts);
    if head != "" {
      assert s[1..] == head[1..] + Tail(parts) && s[0] == head[0];
      SplitOfJoined(head[1..], parts);
      assert [head[0]] + head[1..] == head;
    } else if parts != [] {
      assert s == "/" + (parts[0] + Tail(parts[1..]));
      assert s[1..] == parts[0] + Tail(parts[1..]);
      SplitOfJoined(parts[0], parts[1..]);
    }
  }

  function Joined(parts: seq<string>): string
    requires parts != []
  {
    parts[0] + Tail(parts[1..])
  }

  lemma JoinEmptyFirst(rest: seq<string>)
    requires rest != []
    ensures Joined([""] + rest) == "/" + Joined(rest)
  {
    assert ([""] + rest)[1..] == rest;
    assert Tail(rest) == "/" + (rest[0] + Tail(rest[1..]));
  }

  lemma JoinLongerFirst(c: char, rest: seq<string>)
    requires rest != []
    ensures Joined([[c] + rest[0]] + rest[1..]) == [c] + Joined(rest)
  {
    hide Tail;
    assert ([[c] + rest[0]] + rest[1..])[1..] == rest[1..];
    assert [c] + rest[0] + Tail(rest[1..]) == [c] + (rest[0] + Tail(rest[1..]));
  }

  lemma {:induction false} JoinOfSplit(s: string)
    ensures s == Joined(Split(s))
    ensures forall i :: 0 <= i < |Split(s)| ==> NoSlash(Split(s)[i])
  {
    hide Joined;
    if s == "" {
      assert Joined([""]) == "" by { JoinOfEmpty(); }
    } else {
      JoinOfSplit(s[1..]);
      var rest := Split(s[1..]);
      assert s == [s[0]] + s[1..];
      if s[0] == '/' {
        JoinEmptyFirst(rest);
      } else {
        JoinLongerFirst(s[0], rest);
        assert NoSlash([s[0]] + rest[0]);
      }
    }
  }

  lemma JoinOfEmpty()
    ensures Joined([""]) == ""
  {
  }

  // ------------------------------------------------------------ whole paths

  function PrintTail(p: Path): string {
    if p == [] then "" else "/" + PrintSegment(p[0]) + PrintTail(p[1..])
  }

  function Print(p: Path): string {
    "m" + PrintTail(p)
  }

  /** Segments in order, up to the first that is refused. */
  function ParseSegments(parts: seq<string>): (r: Result<Path, ParseError>) {
    if parts == [] then Ok([])
    else
      match ParseSegment(parts[0])
      case Err(e) => Err(e)
      case Ok(seg) =>
        match ParseSegments(parts[1..])
        case Err(e) => Err(e)
        case Ok(rest) => Ok([seg] + rest)
  }

  function Parse(s: string): (r: Result<Path, ParseError>) {
    if s == "" then Err(EmptyString)
    else
      var parts := Split(s);
      if parts[0] != "m" && parts[0] != "M" then Err(BadHead) else ParseSegments(parts[1..])
  }

  method Display(p: Path) returns (text: string)
    ensures text == Print(p)
  {
    hide PrintSegment;
    text := "m";
    for i := 0 to |p|
      invariant text + PrintTail(p[i..]) == Print(p)
    {
      assert p[i..][0] == p[i] && p[i..][1..] == p[i + 1..];
      text := text + ("/" + PrintSegment(p[i]));
    }
    assert p[|p|..] == [];
  }

  method FromStr(s: string) returns (r: Result<Path, ParseError>)
    ensures r == Parse(s)
  {
    hide ParseSegment;
    if s == "" {
      return Err(EmptyString);
    }
    var parts := Split(s);
    if parts[0] != "m" && parts[0] != "M" {
      return Err(BadHead);
    }
    var segments: Path := [];
    PrependNone(ParseSegments(parts[1..]));
    for i := 1 to |parts|
      invariant ParseSegments(parts[1..]) == Prepend(segments, ParseSegments(parts[i..]))
    {
      assert parts[i..][0] == parts[i] && parts[i..][1..] == parts[i + 1..];
      var seg := ParseSegment(parts[i]);
      if seg.Err? {
        return Err(seg.error);
      }
      assert ParseSegments(parts[i..]) == Prepend([seg.value], ParseSegments(parts[i + 1..]));
      PrependOne(segments, seg.value, ParseSegments(parts[i + 1..]));
      segments := segments + [seg.value];
    }
    assert parts[|parts|..] == [] && segments + [] == segments;
    return Ok(segments);
  }

  // ------------------------------------------------------------ round trips

  function PrintedParts(p: Path): (parts: seq<string>)
    ensures |parts| == |p| && forall i :: 0 <= i < |p| ==> parts[i] == PrintSegment(p[i])
  {
    seq(|p|, i requires 0 <= i < |p| => PrintSegment(p[i]))
  }

  lemma {:induction false} PrintTailIsTail(p: Path)
    ensures PrintTail(p) == Tail(PrintedParts(p))
  {
    if p != [] {
      PrintTailIsTail(p[1..]);
      assert PrintedParts(p)[1..] == PrintedParts(p[1..]);
    }
  }

  lemma DigitsHaveNoSlash(s: string)
    requires AllDigits(s)
    ensures NoSlash(s)
  {
    forall i | 0 <= i < |s| ensures s[i] != '/' {
      assert IsDigit(s[i]);
    }
  }

  lemma SplitOfPrinted(p: Path)
    ensures Split(Print(p)) == ["m"] + PrintedParts(p)
  {
    hide Decimal, Split, Tail;
    forall i | 0 <= i < |p| ensures NoSlash(PrintedParts(p)[i]) {
      DigitsHaveNoSlash(Decimal(p[i].index));
      assert Decimal(p[i].index) + "" == Decimal(p[i].index);
    }
    PrintTailIsTail(p);
    SplitOfJoined("m", PrintedParts(p));
  }

  lemma {:induction false} PrintedSegmentsParse(p: Path)
    ensures ParseSegments(PrintedParts(p)) == if AllInRange(p) then Ok(p) else Err(TooLarge)
  {
    hide ParseSegment, PrintSegment;
    if p != [] {
      PrintedParses(p[0]);
      PrintedSegmentsParse(p[1..]);
      assert PrintedParts(p)[1..] == PrintedParts(p[1..]);
      assert p == [p[0]] + p[1..];
      assert AllInRange(p) <==> p[0].InRange() && AllInRange(p[1..]);
    }
  }

  /** A path survives printing and parsing exactly when every index is below 2^31. */
  lemma PrintThenParse(p: Path)
    ensures Parse(Print(p)) == if AllInRange(p) then Ok(p) else Err(TooLarge)
  {
    hide Split, ParseSegments, PrintTail;
    SplitOfPrinted(p);
    PrintedSegmentsParse(p);
    assert (["m"] + PrintedParts(p))[1..] == PrintedParts(p);
  }

  /** A path in its usual spelling: printed so, and read back from it. */
  lemma UsualSpelling()
    ensures Print([Hardened(44), Normal(5)]) == "m/44'/5"
    ensures Parse("m/44'/5") == Ok([Hardened(44), Normal(5)])
  {
    hide Parse, PrintSegment;
    var p := [Hardened(44), Normal(5)];
    TwoDigits(44);
    SegmentText(p[0], "44");
    SegmentText(p[1], "5");
    assert p[1..][1..] == [] && PrintTail(p[1..]) == "/5";
    PrintThenParse(p);
  }

  lemma TwoDigits(n: nat)
    requires 10 <= n < 100
    ensures Decimal(n) == [DigitChar(n / 10), DigitChar(n % 10)]
  {
  }

  lemma SegmentText(seg: Segment, numeral: string)
    requires Decimal(seg.index) == numeral
    ensures PrintSegment(seg) == if seg.Hardened? then numeral + "'" else numeral
  {
  }

  /** A path that its own text does not give back. */
  lemma WidePathIsLost()
    ensures Parse(Print([Normal(0x8000_0000)])) == Err(TooLarge)
  {
    hide Parse, Print;
    var p := [Normal(0x8000_0000)];
    assert !p[0].InRange();
    PrintThenParse(p);
  }

  /** The texts of a path: either head letter, then one spelling per segment. */
  ghost predicate SpellsPath(s: string, p: Path) {
    exists head: string, parts: seq<string> ::
      s == head + Tail(parts) && (head == "m" || head == "M") && SpellsAll(parts, p)
  }

  ghost predicate SpellsAll(parts: seq<string>, p: Path) {
    |parts| == |p| && forall i :: 0 <= i < |p| ==> Spells(parts[i], p[i])
  }

  lemma {:induction false} SegmentsExactly(parts: seq<string>, p: Path)
    ensures ParseSegments(parts) == Ok(p) <==> AllInRange(p) && SpellsAll(parts, p)
  {
    hide ParseSegment, Spells;
    if parts != [] && p != [] {
      SegmentExactly(parts[0], p[0]);
      SegmentsExactly(parts[1..], p[1..]);
      assert p == [p[0]] + p[1..];
      assert AllInRange(p) <==> p[0].InRange() && AllInRange(p[1..]);
      assert SpellsAll(parts, p) <==> Spells(parts[0], p[0]) && SpellsAll(parts[1..], p[1..]) by {
        assert forall i :: 1 <= i < |p| && |parts| == |p| ==> parts[i] == parts[1..][i - 1] && p[i] == p[1..][i - 1];
      }
      if ParseSegment(parts[0]).Ok? && ParseSegments(parts[1..]).Ok? {
        assert ([ParseSegment(parts[0]).value] + ParseSegments(parts[1..]).value)[1..]
            == ParseSegments(parts[1..]).value;
      }
    }
  }

  lemma SpelledHasNoSlash(raw: string, seg: Segment)
    requires Spells(raw, seg)
    ensures NoSlash(raw)
  {
    hide Decimal, ZeroDigits;
    var plus, k, mark :| raw == Spelling(plus, k, seg.index, mark) && MarkFits(mark, seg);
    DigitsHaveNoSlash(ZeroDigits(k) + Decimal(seg.index));
  }

  /**
   What parses, and to what: exactly the texts of in-range paths, over every mix of
   head letter, plus sign, leading zeros, hardening mark, and depth.
   */
  lemma ParseExactly(s: string, p: Path)
    ensures Parse(s) == Ok(p) <==> AllInRange(p) && SpellsPath(s, p)
  {
    hide Split, Tail, ParseSegments, Spells, AllInRange;
    if Parse(s) == Ok(p) {
      JoinOfSplit(s);
      SegmentsExactly(Split(s)[1..], p);
    }
    if AllInRange(p) && SpellsPath(s, p) {
      var head, parts :| s == head + Tail(parts) && (head == "m" || head == "M") && SpellsAll(parts, p);
      forall i | 0 <= i < |parts| ensures NoSlash(parts[i]) {
        SpelledHasNoSlash(parts[i], p[i]);
      }
      SplitOfJoined(head, parts);
      SegmentsExactly(parts, p);
      assert ([head] + parts)[1..] == parts;
    }
  }

  /**
   Printing what was parsed gives a normal form: it parses to the same path, and
   two texts mean the same path exactly when their normal forms are equal.
   */
  lemma NormalForm(s: string, t: string)
    requires Parse(s).Ok? && Parse(t).Ok?
    ensures Parse(Print(Parse(s).value)) == Parse(s)
    ensures Parse(s) == Parse(t) <==> Print(Parse(s).value) == Print(Parse(t).value)
  {
    hide Parse, Print, AllInRange;
    ParseExactly(s, Parse(s).value);
    ParseExactly(t, Parse(t).value);
    PrintThenParse(Parse(s).value);
    PrintThenParse(Parse(t).value);
  }
}
