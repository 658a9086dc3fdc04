/**
 Telling a static library from a DLL import library by reading the members of an `ar` archive.
 */
module Archive {
  import opened Bytes
  import opened Wrappers

  const MAGIC: seq<Byte> := [0x21, 0x3C, 0x61, 0x72, 0x63, 0x68, 0x3E, 0x0A]
  const HEADER: nat := 60
  const SIZE_LIMIT: nat := 0x1_0000_0000_0000_0000
  const SPACE: Byte := 0x20
  const SLASH: Byte := 0x2F
  const PLUS: Byte := 0x2B
  const ZERO: Byte := 0x30
  const DOT_DLL: seq<Byte> := [0x2E, 0x64, 0x6C, 0x6C]
  const IMPORT_OBJECT: seq<Byte> := [0x00, 0x00, 0xFF, 0xFF]

  // ------------------------------------------------------------------------- text

  predicate White(b: Byte) { 9 <= b <= 13 || b == SPACE }

  predicate Continues(b: Byte) { 0x80 <= b <= 0xBF }

  /** How many bytes the character at the start has, or none if it is malformed: table 3-7 of the Unicode standard. */
  function CharLength(s: seq<Byte>): (n: nat)
    requires s != []
    ensures n <= |s|
  {
    if s[0] < 0x80 then 1
    else if |s| >= 2 && 0xC2 <= s[0] <= 0xDF && Continues(s[1]) then 2
    else if |s| >= 3 && SecondOfThree(s[0], s[1]) && Continues(s[2]) then 3
    else if |s| >= 4 && SecondOfFour(s[0], s[1]) && Continues(s[2]) && Continues(s[3]) then 4
    else 0
  }

  predicate SecondOfThree(b: Byte, c: Byte) {
    || (b == 0xE0 && 0xA0 <= c <= 0xBF)
    || ((0xE1 <= b <= 0xEC || 0xEE <= b <= 0xEF) && Continues(c))
    || (b == 0xED && 0x80 <= c <= 0x9F)
  }

  predicate SecondOfFour(b: Byte, c: Byte) {
    || (b == 0xF0 && 0x90 <= c <= 0xBF) || (0xF1 <= b <= 0xF3 && Continues(c)) || (b == 0xF4 && 0x80 <= c <= 0x8F)
  }

  /** `str::from_utf8` */
  predicate Utf8(s: seq<Byte>) {
    s == [] || (CharLength(s) > 0 && Utf8(s[CharLength(s)..]))
  }

  lemma {:induction false} AsciiIsUtf8(s: seq<Byte>)
    requires forall i :: 0 <= i < |s| ==> s[i] < 0x80
    ensures Utf8(s)
  {
    if s != [] { AsciiIsUtf8(s[1..]); }
  }

  predicate Digit(b: Byte) { ZERO <= b < ZERO + 10 }

  function Lower(b: Byte): Byte { if 0x41 <= b <= 0x5A then b + 0x20 else b }

  function LowerAll(s: seq<Byte>): (r: seq<Byte>)
    ensures |r| == |s|
  {
    seq<Byte>(|s|, i requires 0 <= i < |s| => Lower(s[i]))
  }

  /** The UTF-8 forms of the white space beyond ASCII: U+0085, U+00A0, U+1680, U+2000 to U+200A, U+2028, U+2029,
      U+202F, U+205F and U+3000. */
  predicate WideWhite(s: seq<Byte>) {
    || (|s| == 2 && s[0] == 0xC2 && (s[1] == 0x85 || s[1] == 0xA0))
    || (|s| == 3 && s[0] == 0xE1 && s[1] == 0x9A && s[2] == 0x80)
    || (|s| == 3 && s[0] == 0xE2 && s[1] == 0x80
        && (0x80 <= s[2] <= 0x8A || s[2] == 0xA8 || s[2] == 0xA9 || s[2] == 0xAF))
    || (|s| == 3 && s[0] == 0xE2 && s[1] == 0x81 && s[2] == 0x9F)
    || (|s| == 3 && s[0] == 0xE3 && s[1] == 0x80 && s[2] == 0x80)
  }

  /** How many bytes the white-space character at the end of a text has. */
  function WhiteTail(s: seq<Byte>): (n: nat)
    ensures n <= |s|
  {
    if |s| >= 1 && White(s[|s| - 1]) then 1
    else if |s| >= 2 && WideWhite(s[|s| - 2..]) then 2
    else if |s| >= 3 && WideWhite(s[|s| - 3..]) then 3
    else 0
  }

  function WhiteHead(s: seq<Byte>): (n: nat)
    ensures n <= |s|
  {
    if |s| >= 1 && White(s[0]) then 1
    else if |s| >= 2 && WideWhite(s[..2]) then 2
    else if |s| >= 3 && WideWhite(s[..3]) then 3
    else 0
  }

  function TrimEnd(s: seq<Byte>): seq<Byte> {
    if WhiteTail(s) > 0 then TrimEnd(s[..|s| - WhiteTail(s)]) else s
  }

  function TrimStart(s: seq<Byte>): seq<Byte> {
    if WhiteHead(s) > 0 then TrimStart(s[WhiteHead(s)..]) else s
  }

  function TrimSlashes(s: seq<Byte>): seq<Byte> {
    if s != [] && s[|s| - 1] == SLASH then TrimSlashes(s[..|s| - 1]) else s
  }

  /** The number that a run of decimal digits spells. */
  function Number(s: seq<Byte>): Option<nat> {
    if s == [] then Some(0)
    else
      match Number(s[..|s| - 1])
      case None => None
      case Some(n) => if Digit(s[|s| - 1]) then Some(n * 10 + (s[|s| - 1] - ZERO)) else None
  }

  /** `parse::<usize>`: an optional plus sign, at least one digit, and a value that fits. */
  function ParseSize(s: seq<Byte>): Option<nat> {
    var digits := if s != [] && s[0] == PLUS then s[1..] else s;
    match Number(digits)
    case None => None
    case Some(n) => if digits != [] && n < SIZE_LIMIT then Some(n) else None
  }

  // ------------------------------------------------------------------------- members

  predicate DllNamed(name: seq<Byte>) {
    var s := TrimSlashes(name);
    |s| >= 4 && LowerAll(s[|s| - 4..]) == DOT_DLL
  }

  lemma {:induction false} SlashesTrimmed(s: seq<Byte>)
    ensures var t := TrimSlashes(s);
            && |t| <= |s| && t == s[..|t|] && (t != [] ==> t[|t| - 1] != SLASH)
            && forall i :: |t| <= i < |s| ==> s[i] == SLASH
  {
    if s != [] && s[|s| - 1] == SLASH { SlashesTrimmed(s[..|s| - 1]); }
  }

  predicate MentionsDll(body: seq<Byte>) { exists i :: 0 <= i <= |body| - 4 && DllAt(body, i) }

  predicate DllAt(body: seq<Byte>, i: nat)
    requires i + 4 <= |body|
  {
    LowerAll(body[i..i + 4]) == DOT_DLL
  }

  /** A member other than the symbol index, the long-names table and the nameless ones. */
  predicate Real(name: seq<Byte>) { name != [] && name != [SLASH] && name != [SLASH, SLASH] }

  /** What gives an import library away: a DLL in the long-names table, or a real member that begins like a short
      import or is named after a DLL. */
  predicate ImportMark(name: seq<Byte>, body: seq<Byte>) {
    if name == [SLASH, SLASH] then MentionsDll(body)
    else Real(name) && (IMPORT_OBJECT <= body || DllNamed(name))
  }

  /** ".dll", in capital or small letters. */
  predicate SpellsDll(s: seq<Byte>, i: nat) {
    && i + 4 <= |s| && s[i] == 0x2E && (s[i + 1] == 0x44 || s[i + 1] == 0x64)
    && (s[i + 2] == 0x4C || s[i + 2] == 0x6C) && (s[i + 3] == 0x4C || s[i + 3] == 0x6C)
  }

  /** It ends the name, but for slashes. */
  predicate EndsInDll(name: seq<Byte>, n: nat) {
    SpellsDll(name, n) && forall i :: n + 4 <= i < |name| ==> name[i] == SLASH
  }

  /** What counts, letter by letter: the symbol index and nameless members for nothing; the long-names table if it
      spells ".dll" anywhere; any other member if it begins 00 00 FF FF or if ".dll" and slashes end its name. */
  lemma MarkMeans(name: seq<Byte>, body: seq<Byte>)
    ensures Real(name) <==> |name| > 2 || exists i :: 0 <= i < |name| && name[i] != SLASH
    ensures ImportMark([SLASH, SLASH], body) <==> exists i: nat :: SpellsDll(body, i)
    ensures name != [SLASH, SLASH] ==>
              (ImportMark(name, body)
               <==> Real(name)
                    && ((|body| >= 4 && body[..4] == [0, 0, 0xFF, 0xFF]) || exists n: nat :: EndsInDll(name, n)))
  {
    if |name| == 1 { assert name == [name[0]]; }
    if |name| == 2 { assert name == [name[0], name[1]]; }
    if i :| 0 <= i <= |body| - 4 && DllAt(body, i) { SpelledOut(body, i); }
    if i: nat :| SpellsDll(body, i) {
      SpelledOut(body, i);
      assert DllAt(body, i);
    }
    DllNamedMeans(name);
  }

  lemma SpelledOut(s: seq<Byte>, i: nat)
    requires i + 4 <= |s|
    ensures LowerAll(s[i..i + 4]) == DOT_DLL <==> SpellsDll(s, i)
  {
    var four := s[i..i + 4];
    assert LowerAll(four) == [Lower(four[0]), Lower(four[1]), Lower(four[2]), Lower(four[3])];
    assert [Lower(four[0]), Lower(four[1]), Lower(four[2]), Lower(four[3])] == DOT_DLL
        <==> Lower(four[0]) == 0x2E && Lower(four[1]) == 0x64 && Lower(four[2]) == 0x6C && Lower(four[3]) == 0x6C;
  }

  lemma DllNamedMeans(name: seq<Byte>)
    ensures DllNamed(name) <==> exists n: nat :: EndsInDll(name, n)
  {
    SlashesTrimmed(name);
    var s := TrimSlashes(name);
    if |s| >= 4 {
      assert name[|s| - 4..|s| - 4 + 4] == s[|s| - 4..];
      SpelledOut(name, |s| - 4);
      if DllNamed(name) { assert EndsInDll(name, |s| - 4); }
    }
    if n: nat :| EndsInDll(name, n) {
      assert name[n + 3] != SLASH;
      assert |s| == n + 4;
    }
  }

  // ------------------------------------------------------------------------- the scan

  /** The outcome from a position on, `saw` telling whether a real member came before. */
  function Scan(data: seq<Byte>, pos: nat, saw: bool): Option<bool>
    decreases |data| - pos
  {
    if pos + HEADER > |data| then if saw then Some(true) else None
    else
      var header := data[pos..pos + HEADER];
      if !Utf8(header[0..16]) || !Utf8(header[48..58]) then None
      else
        var name := TrimEnd(header[0..16]);
        match ParseSize(TrimEnd(TrimStart(header[48..58])))
        case None => None
        case Some(size) =>
          var body := pos + HEADER;
          if body + size > |data| then None
          else if ImportMark(name, data[body..body + size]) then Some(false)
          else Scan(data, body + size + size % 2, saw || Real(name))
  }

  /** What a list of members is: an import library exactly when some member carries a mark, a static library when
      there is a real member and no mark. */
  function Verdict(ms: seq<Member>): Option<bool> {
    if AnyMark(ms) then Some(false) else if AnyReal(ms) then Some(true) else None
  }

  /** `data` is an archive of these members. */
  predicate IsArchive(data: seq<Byte>, ms: seq<Member>) {
    AllPrintable(ms) && data == MAGIC + PrintedAll(ms)
  }

  lemma ArchiveVerdict(data: seq<Byte>)
    ensures forall ms: seq<Member> :: IsArchive(data, ms) ==>
              MAGIC <= data && Scan(data, |MAGIC|, false) == Verdict(ms)
  {
    forall ms: seq<Member> | IsArchive(data, ms)
      ensures MAGIC <= data && Scan(data, |MAGIC|, false) == Verdict(ms)
    {
      PrintedVerdict(ms);
    }
  }

  /** `archive_is_static`, on the contents of the file: import library `Some(false)`, static `Some(true)`. */
  method ArchiveIsStatic(data: seq<Byte>) returns (verdict: Option<bool>)
    requires |data| < SIZE_LIMIT
    ensures forall ms: seq<Member> :: IsArchive(data, ms) ==> verdict == Verdict(ms)
    ensures verdict == if MAGIC <= data then Scan(data, |MAGIC|, false) else None
  {
    ArchiveVerdict(data);
    hide IsArchive, Verdict, ParseSize, TrimEnd, TrimStart, MentionsDll, DllNamed;
    if !(MAGIC <= data) { return None; }
    var pos := |MAGIC|;
    var sawRealMember := false;
    while pos + HEADER <= |data|
      invariant Scan(data, pos, sawRealMember) == Scan(data, |MAGIC|, false)
      decreases |data| - pos
    {
      var header := data[pos..pos + HEADER];
      if !Utf8(header[0..16]) { return None; }
      var name := TrimEnd(header[0..16]);
      if !Utf8(header[48..58]) { return None; }
      var parsed := ParseSize(TrimEnd(TrimStart(header[48..58])));
      if parsed.None? { return None; }
      var size := parsed.value;
      var body := pos + HEADER;
      if body + size >= SIZE_LIMIT || body + size > |data| { return None; }
      var end := body + size;
      var bytes := data[body..end];
      if name == [SLASH, SLASH] {
        if MentionsDll(bytes) { return Some(false); }
      } else if !(name == [] || name == [SLASH]) {
        sawRealMember := true;
        if IMPORT_OBJECT <= bytes || DllNamed(name) { return Some(false); }
      }
      pos := end + size % 2;
    }
    verdict := if sawRealMember then Some(true) else None;
  }

  // ------------------------------------------------------------------------- archives as printed

  datatype Member = Member(name: seq<Byte>, middle: seq<Byte>, body: seq<Byte>)

  function Spaces(n: nat): (r: seq<Byte>)
    ensures |r| == n
  {
    seq<Byte>(n, _ => SPACE)
  }

  function Decimal(n: nat): (r: seq<Byte>)
    ensures r != [] && forall i :: 0 <= i < |r| ==> Digit(r[i])
  {
    if n < 10 then [ZERO + n] else Decimal(n / 10) + [ZERO + n % 10]
  }

  function Pow10(k: nat): nat { if k == 0 then 1 else 10 * Pow10(k - 1) }

  lemma {:induction false} DecimalLength(n: nat, k: nat)
    requires k >= 1 && n < Pow10(k)
    ensures |Decimal(n)| <= k
  {
    if n >= 10 {
      assert k > 1;
      DecimalLength(n / 10, k - 1);
    }
  }

  lemma OneMoreDigit(digits: seq<Byte>, n: nat, digit: nat)
    requires Number(digits) == Some(n) && digit < 10
    ensures Number(digits + [ZERO + digit]) == Some(n * 10 + digit)
  {
    var s := digits + [ZERO + digit];
    assert s[..|s| - 1] == digits;
  }

  lemma {:induction false} NumberOfDecimal(n: nat)
    ensures Number(Decimal(n)) == Some(n)
  {
    if n < 10 {
      assert [ZERO + n][..0] == [];
    } else {
      NumberOfDecimal(n / 10);
      OneMoreDigit(Decimal(n / 10), n / 10, n % 10);
    }
  }

  lemma {:induction false} TrimPadding(s: seq<Byte>, n: nat)
    requires TrimEnd(s) == s
    ensures TrimEnd(s + Spaces(n)) == s
  {
    if n == 0 {
      assert s + Spaces(0) == s;
    } else {
      SpaceTail(s, n);
      hide WhiteTail, Spaces;
      TrimPadding(s, n - 1);
    }
  }

  lemma SpaceTail(s: seq<Byte>, n: nat)
    requires n > 0
    ensures var t := s + Spaces(n); WhiteTail(t) == 1 && t[..|t| - 1] == s + Spaces(n - 1)
  {
    var t := s + Spaces(n);
    assert t[|t| - 1] == SPACE;
  }

  lemma NoWhiteEnds(s: seq<Byte>)
    requires s != []
    ensures Digit(s[0]) ==> WhiteHead(s) == 0
    ensures Digit(s[|s| - 1]) ==> WhiteTail(s) == 0
  {
  }

  /** The size field gives back the size it was printed from. */
  lemma SizeReadsBack(n: nat, pad: nat)
    requires n < SIZE_LIMIT
    ensures ParseSize(TrimEnd(TrimStart(Decimal(n) + Spaces(pad)))) == Some(n)
  {
    var d := Decimal(n);
    assert Digit(d[0]) && Digit(d[|d| - 1]);
    assert (d + Spaces(pad))[0] == d[0];
    NoWhiteEnds(d);
    NoWhiteEnds(d + Spaces(pad));
    TrimPadding(d, pad);
    NumberOfDecimal(n);
    hide WhiteTail, WhiteHead, Decimal, Number;
  }

  /** A member as an archiver writes it: a name that is text, and a name and a size that fit their fields. */
  predicate Printable(m: Member) {
    && |m.name| <= 16 && TrimEnd(m.name) == m.name && Utf8(m.name + Spaces(16 - |m.name|))
    && |m.middle| == 32 && |m.body| < Pow10(10)
    && |Decimal(|m.body|)| <= 10
  }

  predicate AllPrintable(ms: seq<Member>) {
    ms != [] ==> Printable(ms[0]) && AllPrintable(ms[1..])
  }

  function Header(m: Member): (h: seq<Byte>)
    requires |m.name| <= 16 && |m.middle| == 32 && |Decimal(|m.body|)| <= 10
    ensures |h| == HEADER
  {
    m.name + Spaces(16 - |m.name|) + m.middle + (Decimal(|m.body|) + Spaces(10 - |Decimal(|m.body|)|)) + [0x60, 0x0A]
  }

  /** Header, contents, and a byte of padding after an odd size. */
  function Printed(m: Member): seq<Byte>
    requires Printable(m)
  {
    Header(m) + m.body + if |m.body| % 2 == 1 then [0x0A] else []
  }

  function PrintedAll(ms: seq<Member>): seq<Byte>
    requires AllPrintable(ms)
  {
    if ms == [] then [] else Printed(ms[0]) + PrintedAll(ms[1..])
  }

  predicate AnyMark(ms: seq<Member>) { exists m :: m in ms && ImportMark(m.name, m.body) }

  predicate AnyReal(ms: seq<Member>) { exists m :: m in ms && Real(m.name) }

  lemma HeaderFields(m: Member)
    requires |m.name| <= 16 && |m.middle| == 32 && |Decimal(|m.body|)| <= 10
    ensures Header(m)[0..16] == m.name + Spaces(16 - |m.name|)
    ensures Header(m)[48..58] == Decimal(|m.body|) + Spaces(10 - |Decimal(|m.body|)|)
  {
  }

  lemma SliceOfFirst(data: seq<Byte>, pos: nat, p: seq<Byte>, rest: seq<Byte>, i: nat, j: nat)
    requires pos <= |data| && data[pos..] == p + rest && i <= j <= |p|
    ensures pos + |p| <= |data| && data[pos + i..pos + j] == p[i..j]
  {
    var tail, slice := data[pos..], data[pos + i..pos + j];
    forall k | 0 <= k < j - i ensures slice[k] == p[i..j][k] {
      assert tail[i + k] == data[pos + (i + k)];
    }
  }

  lemma AfterFirst(data: seq<Byte>, pos: nat, p: seq<Byte>, rest: seq<Byte>)
    requires pos <= |data| && data[pos..] == p + rest
    ensures pos + |p| <= |data| && data[pos + |p|..] == rest
  {
    var tail := data[pos..];
    assert tail[|p|..] == rest;
    forall k | 0 <= k < |rest| ensures data[pos + |p|..][k] == rest[k] {
      assert tail[|p| + k] == data[pos + (|p| + k)];
    }
  }

  lemma PrintedParts(m: Member)
    requires Printable(m)
    ensures var p := Printed(m);
            && |p| == HEADER + |m.body| + |m.body| % 2 && p[..HEADER] == Header(m)
            && p[HEADER..HEADER + |m.body|] == m.body
  {
    hide Decimal, Spaces;
    var h := Header(m);
    hide Header;
    assert Printed(m)[..HEADER] == h;
  }

  lemma Fields(data: seq<Byte>, pos: nat, m: Member, rest: seq<Byte>)
    requires Printable(m) && pos <= |data| && data[pos..] == Printed(m) + rest
    ensures pos + HEADER + |m.body| + |m.body| % 2 <= |data|
    ensures data[pos..pos + HEADER] == Header(m) && data[pos + HEADER..pos + HEADER + |m.body|] == m.body
    ensures data[pos + HEADER + |m.body| + |m.body| % 2..] == rest
  {
    hide Header, Printable, Decimal, Printed;
    var p := Printed(m);
    PrintedParts(m);
    SliceOfFirst(data, pos, p, rest, 0, HEADER);
    SliceOfFirst(data, pos, p, rest, HEADER, HEADER + |m.body|);
    AfterFirst(data, pos, p, rest);
  }

  /** The scan at a member whose fields read as `name` and `size`. */
  lemma ScanMember(data: seq<Byte>, pos: nat, h: seq<Byte>, name: seq<Byte>, size: nat, saw: bool)
    requires pos + HEADER + size <= |data| && |h| == HEADER && data[pos..pos + HEADER] == h
    requires Utf8(h[0..16]) && Utf8(h[48..58]) && TrimEnd(h[0..16]) == name
    requires ParseSize(TrimEnd(TrimStart(h[48..58]))) == Some(size)
    ensures var body := pos + HEADER;
            Scan(data, pos, saw)
            == if ImportMark(name, data[body..body + size]) then Some(false)
               else Scan(data, body + size + size % 2, saw || Real(name))
  {
    hide ImportMark, Real, ParseSize, TrimEnd, TrimStart;
  }

  /** One printed member is read as it was printed. */
  lemma ScanOne(data: seq<Byte>, pos: nat, m: Member, rest: seq<Byte>, saw: bool)
    requires Printable(m) && pos <= |data| && data[pos..] == Printed(m) + rest
    ensures var next := pos + HEADER + |m.body| + |m.body| % 2;
            && next <= |data| && data[next..] == rest
            && Scan(data, pos, saw)
               == if ImportMark(m.name, m.body) then Some(false) else Scan(data, next, saw || Real(m.name))
  {
    hide Scan, ImportMark, Real, Decimal, ParseSize, TrimEnd, TrimStart, Printed, Header, Spaces, Printable;
    Fields(data, pos, m, rest);
    HeaderReads(m);
    ScanMember(data, pos, Header(m), m.name, |m.body|, saw);
  }

  lemma HeaderReads(m: Member)
    requires Printable(m)
    ensures |m.name| <= 16 && |m.middle| == 32 && |Decimal(|m.body|)| <= 10
    ensures var h := Header(m);
            && Utf8(h[0..16]) && Utf8(h[48..58]) && TrimEnd(h[0..16]) == m.name
            && ParseSize(TrimEnd(TrimStart(h[48..58]))) == Some(|m.body|)
  {
    hide Decimal, ParseSize, TrimEnd, TrimStart, Header;
    HeaderFields(m);
    AsciiIsUtf8(Decimal(|m.body|) + Spaces(10 - |Decimal(|m.body|)|));
    TrimPadding(m.name, 16 - |m.name|);
    assert Pow10(10) == 10000000000 by { TenDigits(); }
    SizeReadsBack(|m.body|, 10 - |Decimal(|m.body|)|);
  }

  lemma TenDigits()
    ensures Pow10(10) == 10000000000
  {
    assert Pow10(5) == 100000;
  }

  lemma AnyOf(ms: seq<Member>)
    requires ms != []
    ensures AnyMark(ms) <==> ImportMark(ms[0].name, ms[0].body) || AnyMark(ms[1..])
    ensures AnyReal(ms) <==> Real(ms[0].name) || AnyReal(ms[1..])
  {
    hide ImportMark, Real;
    assert ms == [ms[0]] + ms[1..];
  }

  lemma {:induction false} ScanPrinted(data: seq<Byte>, pos: nat, ms: seq<Member>, saw: bool)
    requires AllPrintable(ms) && pos <= |data| && data[pos..] == PrintedAll(ms)
    ensures Scan(data, pos, saw)
            == if AnyMark(ms) then Some(false) else if saw || AnyReal(ms) then Some(true) else None
    decreases |ms|
  {
    hide Scan, ImportMark, Real, Printable, Printed;
    if ms == [] {
      ScanEnd(data, pos, saw);
    } else {
      AnyOf(ms);
      hide AnyMark, AnyReal;
      ScanOne(data, pos, ms[0], PrintedAll(ms[1..]), saw);
      var next := pos + HEADER + |ms[0].body| + |ms[0].body| % 2;
      ScanPrinted(data, next, ms[1..], saw || Real(ms[0].name));
    }
  }

  lemma ScanEnd(data: seq<Byte>, pos: nat, saw: bool)
    requires pos == |data|
    ensures Scan(data, pos, saw) == if saw then Some(true) else None
  {
  }

  /** On every printed archive: an import library exactly when some member carries a mark, a static library when there
      is a real member and no mark, and no verdict otherwise. */
  lemma PrintedVerdict(ms: seq<Member>)
    requires AllPrintable(ms)
    ensures var data := MAGIC + PrintedAll(ms);
            && MAGIC <= data
            && Scan(data, |MAGIC|, false) == Verdict(ms)
  {
    hide Scan, AnyMark, AnyReal, AllPrintable;
    var data := MAGIC + PrintedAll(ms);
    assert data[|MAGIC|..] == PrintedAll(ms);
    ScanPrinted(data, |MAGIC|, ms, false);
  }
}
