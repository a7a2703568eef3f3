/** Header text as UTF-8 bytes: lines, trimming, lower case and base64. */
module Text {
  import opened Bytes

  const LF: byte := 10
  const CR: byte := 13
  const COLON: byte := 58
  const CRLF: seq<byte> := [CR, LF]

  /** The bytes of an ASCII string. */
  function Ascii(s: string): (b: seq<byte>)
    ensures |b| == |s|
  {
    seq(|s|, i requires 0 <= i < |s| => s[i] as nat % 256)
  }

  // ----- lines ----------------------------------------------------------------------------

  /** ReadString('\n'): the text up to and with the first line feed, and what follows it. */
  datatype LineRead = Line(line: seq<byte>, rest: seq<byte>) | NoLine

  function NextLine(s: seq<byte>): (r: LineRead)
    ensures r.Line? ==> r.line + r.rest == s && r.line != [] && |r.rest| < |s|
    ensures r.NoLine? <==> LF !in s
  {
    if s == [] then NoLine
    else if s[0] == LF then Line([LF], s[1..])
    else
      match NextLine(s[1..])
      case NoLine => NoLine
      case Line(line, rest) => Line([s[0]] + line, rest)
  }

  /** A line is what precedes its line feed. */
  lemma {:induction false} NextLineOf(body: seq<byte>, rest: seq<byte>)
    requires LF !in body
    ensures NextLine(body + [LF] + rest) == Line(body + [LF], rest)
  {
    LineAlone(body);
    NextLineExtends(body + [LF], rest);
    assert [] + rest == rest;
  }

  lemma {:induction false} LineAlone(body: seq<byte>)
    requires LF !in body
    ensures NextLine(body + [LF]) == Line(body + [LF], [])
  {
    var s := body + [LF];
    if body != [] {
      assert s[1..] == body[1..] + [LF];
      LineAlone(body[1..]);
      assert [body[0]] + (body[1..] + [LF]) == s;
    }
  }

  /** More text behind a complete line changes nothing about the line. */
  lemma {:induction false} NextLineExtends(s: seq<byte>, more: seq<byte>)
    requires NextLine(s).Line?
    ensures NextLine(s + more) == Line(NextLine(s).line, NextLine(s).rest + more)
  {
    if s[0] == LF {
      assert (s + more)[1..] == s[1..] + more;
    } else {
      assert (s + more)[1..] == s[1..] + more;
      NextLineExtends(s[1..], more);
    }
  }

  // ----- trimming -------------------------------------------------------------------------

  /** ASCII white space. */
  predicate IsSpace(b: byte) {
    b == 32 || 9 <= b <= 13
  }

  /** An ASCII character that is not white space. */
  predicate IsPlain(b: byte) {
    b < 128 && !IsSpace(b)
  }

  predicate StartsPlain(s: seq<byte>) {
    s != [] && IsPlain(s[0])
  }

  predicate AllSpace(s: seq<byte>) {
    forall i :: 0 <= i < |s| ==> IsSpace(s[i])
  }

  /** The UTF-8 form of one white space character, as unicode.IsSpace has them: ASCII, U+0085,
      U+00A0, U+1680, U+2000 to U+200A, U+2028, U+2029, U+202F, U+205F and U+3000. */
  predicate IsSpaceCode(u: seq<byte>) {
    || (|u| == 1 && IsSpace(u[0]))
    || (|u| == 2 && u[0] == 0xC2 && (u[1] == 0x85 || u[1] == 0xA0))
    || (|u| == 3 && u[0] == 0xE1 && u[1] == 0x9A && u[2] == 0x80)
    || (|u| == 3 && u[0] == 0xE2 && u[1] == 0x80
        && (0x80 <= u[2] <= 0x8A || u[2] == 0xA8 || u[2] == 0xA9 || u[2] == 0xAF))
    || (|u| == 3 && u[0] == 0xE2 && u[1] == 0x81 && u[2] == 0x9F)
    || (|u| == 3 && u[0] == 0xE3 && u[1] == 0x80 && u[2] == 0x80)
  }

  /** The size of the white space character at the front of a text; 0 if there is none. */
  function SpaceFront(s: seq<byte>): (n: nat)
    ensures n <= |s| && (n > 0 ==> IsSpaceCode(s[..n]))
  {
    hide IsSpaceCode;
    if |s| >= 1 && IsSpaceCode(s[..1]) then 1
    else if |s| >= 2 && IsSpaceCode(s[..2]) then 2
    else if |s| >= 3 && IsSpaceCode(s[..3]) then 3
    else 0
  }

  function SpaceBack(s: seq<byte>): (n: nat)
    ensures n <= |s| && (n > 0 ==> IsSpaceCode(s[|s| - n..]))
  {
    hide IsSpaceCode;
    if |s| >= 1 && IsSpaceCode(s[|s| - 1..]) then 1
    else if |s| >= 2 && IsSpaceCode(s[|s| - 2..]) then 2
    else if |s| >= 3 && IsSpaceCode(s[|s| - 3..]) then 3
    else 0
  }

  function TrimLeft(s: seq<byte>): seq<byte>
    decreases |s|
  {
    var n := SpaceFront(s);
    if n > 0 then TrimLeft(s[n..]) else s
  }

  function TrimRight(s: seq<byte>): seq<byte>
    decreases |s|
  {
    var n := SpaceBack(s);
    if n > 0 then TrimRight(s[..|s| - n]) else s
  }

  /** strings.TrimSpace */
  function Trim(s: seq<byte>): seq<byte> {
    TrimRight(TrimLeft(s))
  }

  lemma PlainIsNoSpace(s: seq<byte>)
    ensures s != [] && IsPlain(s[0]) ==> SpaceFront(s) == 0
    ensures s != [] && IsPlain(s[|s| - 1]) ==> SpaceBack(s) == 0
    ensures s != [] && IsSpace(s[0]) ==> SpaceFront(s) == 1
    ensures s != [] && IsSpace(s[|s| - 1]) ==> SpaceBack(s) == 1
  {}

  lemma {:induction false} TrimLeftDrops(space: seq<byte>, core: seq<byte>)
    requires AllSpace(space) && (core == [] || IsPlain(core[0]))
    ensures TrimLeft(space + core) == core
  {
    hide SpaceFront;
    PlainIsNoSpace(space + core);
    if space == [] {
      assert space + core == core;
      assert core == [] ==> SpaceFront(core) == 0;
    } else {
      assert IsSpace(space[0]) && (space + core)[1..] == space[1..] + core;
      TrimLeftDrops(space[1..], core);
    }
  }

  lemma {:induction false} TrimRightDrops(core: seq<byte>, space: seq<byte>)
    requires AllSpace(space) && (core == [] || IsPlain(core[|core| - 1]))
    ensures TrimRight(core + space) == core
  {
    hide SpaceBack;
    PlainIsNoSpace(core + space);
    if space == [] {
      assert core + space == core;
      assert core == [] ==> SpaceBack(core) == 0;
    } else {
      assert IsSpace(space[|space| - 1]);
      assert (core + space)[..|core + space| - 1] == core + space[..|space| - 1];
      TrimRightDrops(core, space[..|space| - 1]);
    }
  }

  /** Trimming finds a core that does not begin or end with white space. */
  lemma TrimFinds(left: seq<byte>, core: seq<byte>, right: seq<byte>)
    requires AllSpace(left) && AllSpace(right)
    requires core != [] && IsPlain(core[0]) && IsPlain(core[|core| - 1])
    ensures Trim(left + core + right) == core
  {
    hide TrimLeft, TrimRight;
    assert left + core + right == left + (core + right);
    TrimLeftDrops(left, core + right);
    TrimRightDrops(core, right);
  }

  lemma CodeIsNotPlain(u: seq<byte>)
    requires IsSpaceCode(u)
    ensures u != [] && !IsPlain(u[0])
  {}

  lemma {:induction false} TrimRightKeepsFirst(s: seq<byte>)
    requires StartsPlain(s)
    ensures TrimRight(s) != []
    decreases |s|
  {
    hide SpaceBack;
    var n := SpaceBack(s);
    if n > 0 {
      CodeIsNotPlain(s[|s| - n..]);
      TrimRightKeepsFirst(s[..|s| - n]);
    }
  }

  /** A text that starts with an ordinary character is not blank. */
  lemma PlainIsNotBlank(s: seq<byte>)
    requires StartsPlain(s)
    ensures Trim(s) != []
  {
    hide SpaceFront, TrimRight;
    PlainIsNoSpace(s);
    TrimRightKeepsFirst(s);
  }

  lemma {:induction false} TrimLeftStops(s: seq<byte>)
    ensures SpaceFront(TrimLeft(s)) == 0
    decreases |s|
  {
    hide SpaceFront;
    if SpaceFront(s) > 0 {
      TrimLeftStops(s[SpaceFront(s)..]);
    }
  }

  lemma FrontOfLonger(s: seq<byte>, more: seq<byte>)
    requires SpaceFront(s) > 0
    ensures SpaceFront(s + more) > 0
  {
    assert forall n :: 0 <= n <= |s| ==> (s + more)[..n] == s[..n];
  }

  lemma FrontOfCode(u: seq<byte>)
    requires IsSpaceCode(u)
    ensures SpaceFront(u) > 0
  {
    assert u[..|u|] == u;
  }

  lemma {:induction false} TrimRightEmptiesSpace(s: seq<byte>)
    requires s != [] && TrimRight(s) == []
    ensures SpaceFront(s) > 0
    decreases |s|
  {
    hide SpaceFront, SpaceBack;
    var n := SpaceBack(s);
    assert s == s[..|s| - n] + s[|s| - n..];
    if n == |s| {
      assert s[|s| - n..] == s;
      FrontOfCode(s);
    } else {
      TrimRightEmptiesSpace(s[..|s| - n]);
      FrontOfLonger(s[..|s| - n], s[|s| - n..]);
    }
  }

  /** A text is a row of white space characters. */
  predicate IsBlank(s: seq<byte>)
    decreases |s|
  {
    s == [] || (SpaceFront(s) > 0 && IsBlank(s[SpaceFront(s)..]))
  }

  lemma {:induction false} TrimLeftBlankIff(s: seq<byte>)
    ensures TrimLeft(s) == [] <==> IsBlank(s)
    decreases |s|
  {
    hide SpaceFront;
    if SpaceFront(s) > 0 {
      TrimLeftBlankIff(s[SpaceFront(s)..]);
    }
  }

  /** Trimming from both ends empties a text exactly when it is white space all through. */
  lemma BlankIff(s: seq<byte>)
    ensures Trim(s) == [] <==> IsBlank(s)
  {
    hide TrimLeft, SpaceFront;
    TrimLeftBlankIff(s);
    TrimLeftStops(s);
    if TrimLeft(s) != [] && TrimRight(TrimLeft(s)) == [] {
      TrimRightEmptiesSpace(TrimLeft(s));
    }
  }

  predicate AreSpaceCodes(us: seq<seq<byte>>) {
    forall u :: u in us ==> IsSpaceCode(u)
  }

  lemma {:induction false} TrimLeftShape(s: seq<byte>) returns (us: seq<seq<byte>>)
    ensures AreSpaceCodes(us) && s == Concat(us) + TrimLeft(s)
    decreases |s|
  {
    hide SpaceFront, IsSpaceCode;
    us := [];
    var n := SpaceFront(s);
    if n > 0 {
      us := TrimLeftShape(s[n..]);
      ConcatNext(s[..n], us);
      Associative(s[..n], Concat(us), TrimLeft(s));
      us := [s[..n]] + us;
    }
  }

  lemma {:induction false} TrimRightShape(s: seq<byte>) returns (vs: seq<seq<byte>>)
    ensures AreSpaceCodes(vs) && s == TrimRight(s) + Concat(vs) && SpaceBack(TrimRight(s)) == 0
    decreases |s|
  {
    hide SpaceBack, IsSpaceCode;
    vs := [];
    var n := SpaceBack(s);
    if n > 0 {
      var cut, last := s[..|s| - n], s[|s| - n..];
      vs := TrimRightShape(cut);
      ConcatAppend(vs, [last]);
      ConcatOne(last);
      Associative(TrimRight(s), Concat(vs), last);
      vs := vs + [last];
    }
  }

  /** strings.TrimSpace: what is cut off at each end is white space characters one after another,
      and what is left neither begins nor ends with one. */
  lemma TrimShape(s: seq<byte>) returns (us: seq<seq<byte>>, vs: seq<seq<byte>>)
    ensures AreSpaceCodes(us) && AreSpaceCodes(vs) && s == Concat(us) + Trim(s) + Concat(vs)
    ensures forall u :: IsSpaceCode(u) ==> !(u <= Trim(s)) && !EndsWith(Trim(s), u)
  {
    hide TrimLeft, TrimRight, SpaceFront, SpaceBack, IsSpaceCode;
    us := TrimLeftShape(s);
    TrimLeftStops(s);
    var left := TrimLeft(s);
    vs := TrimRightShape(left);
    Associative(Concat(us), Trim(s), Concat(vs));
    if SpaceFront(Trim(s)) > 0 {
      FrontOfLonger(Trim(s), Concat(vs));
    }
    NoCodeAtEnds(Trim(s));
  }

  predicate EndsWith(s: seq<byte>, u: seq<byte>) {
    |u| <= |s| && s[|s| - |u|..] == u
  }

  lemma NoCodeAtEnds(s: seq<byte>)
    requires SpaceFront(s) == 0 && SpaceBack(s) == 0
    ensures forall u :: IsSpaceCode(u) ==> !(u <= s) && !EndsWith(s, u)
  {
    hide SpaceFront, SpaceBack, IsSpaceCode;
    forall u | IsSpaceCode(u)
      ensures (u <= s ==> SpaceFront(s) > 0) && (EndsWith(s, u) ==> SpaceBack(s) > 0)
    {
      CodeInFront(s, u);
      CodeBehind(s, u);
    }
  }

  lemma CodeInFront(s: seq<byte>, u: seq<byte>)
    requires IsSpaceCode(u)
    ensures u <= s ==> SpaceFront(s) > 0
  {
    hide IsSpaceCode;
    CodeSize(u);
    assert u <= s ==> s[..|u|] == u;
  }

  lemma CodeBehind(s: seq<byte>, u: seq<byte>)
    requires IsSpaceCode(u)
    ensures EndsWith(s, u) ==> SpaceBack(s) > 0
  {
    hide IsSpaceCode;
    CodeSize(u);
  }

  lemma CodeSize(u: seq<byte>)
    requires IsSpaceCode(u)
    ensures 1 <= |u| <= 3
  {}

  // ----- header fields --------------------------------------------------------------------

  /** strings.ToLower on one ASCII byte. */
  function Lower(b: byte): (l: byte)
    ensures if 'A' as int <= b <= 'Z' as int then l == b + ('a' as int - 'A' as int) else l == b
  {
    if 65 <= b <= 90 then b + 32 else b
  }

  /** U+212A, the one other character whose lower case is an ASCII letter that occurs in the
      header's name: k. */
  const KELVIN: seq<byte> := [0xE2, 0x84, 0xAA]

  /** strings.HasPrefix(strings.ToLower(s), prefix), for a prefix of ASCII characters other than
      capitals and i. */
  predicate HasLowerPrefix(s: seq<byte>, prefix: seq<byte>)
    decreases |prefix|
  {
    if prefix == [] then true
    else if s == [] then false
    else if Lower(s[0]) == prefix[0] then HasLowerPrefix(s[1..], prefix[1..])
    else prefix[0] == 107 && KELVIN <= s && HasLowerPrefix(s[3..], prefix[1..])
  }

  /** The text in lower case, as far as ASCII letters and the sign for kelvin go. */
  function LowerText(s: seq<byte>): seq<byte> {
    if s == [] then [] else if KELVIN <= s then [107] + LowerText(s[3..]) else [Lower(s[0])] + LowerText(s[1..])
  }

  /** The test without building the lower-case text is the test on that text. */
  lemma {:induction false} LowerPrefixIff(s: seq<byte>, prefix: seq<byte>)
    requires forall i :: 0 <= i < |prefix| ==> prefix[i] < 128
    ensures HasLowerPrefix(s, prefix) <==> prefix <= LowerText(s)
    decreases |prefix|
  {
    if prefix != [] && s != [] {
      if KELVIN <= s {
        LowerPrefixIff(s[3..], prefix[1..]);
        PrefixCons(prefix, 107, LowerText(s[3..]));
      } else {
        LowerPrefixIff(s[1..], prefix[1..]);
        PrefixCons(prefix, Lower(s[0]), LowerText(s[1..]));
      }
    }
  }

  lemma PrefixCons(prefix: seq<byte>, b: byte, s: seq<byte>)
    requires prefix != []
    ensures prefix <= [b] + s <==> prefix[0] == b && prefix[1..] <= s
  {
    if prefix <= [b] + s {
      assert ([b] + s)[..|prefix|][1..] == s[..|prefix| - 1];
    }
    if prefix[0] == b && prefix[1..] <= s {
      assert ([b] + s)[..|prefix|] == [b] + s[..|prefix| - 1] == prefix;
    }
  }

  lemma {:induction false} PrefixByBytes(s: seq<byte>, prefix: seq<byte>)
    requires |prefix| <= |s| && forall i :: 0 <= i < |prefix| ==> Lower(s[i]) == prefix[i]
    ensures HasLowerPrefix(s, prefix)
    decreases |prefix|
  {
    if prefix != [] {
      PrefixByBytes(s[1..], prefix[1..]);
    }
  }

  lemma {:induction false} NoPrefixByByte(s: seq<byte>, prefix: seq<byte>, i: nat)
    requires i < |s| && i < |prefix| && Lower(s[i]) != prefix[i]
    requires forall j :: 0 <= j <= i ==> s[j] < 128
    ensures !HasLowerPrefix(s, prefix)
    decreases i
  {
    if i > 0 && Lower(s[0]) == prefix[0] {
      NoPrefixByByte(s[1..], prefix[1..], i - 1);
    }
  }

  /** strings.SplitN(s, ":", 2)[1], if there is a colon. */
  function AfterColon(s: seq<byte>): (value: Option<seq<byte>>)
    ensures value.None? <==> COLON !in s
  {
    if s == [] then None else if s[0] == COLON then Some(s[1..]) else AfterColon(s[1..])
  }

  lemma {:induction false} AfterColonOf(name: seq<byte>, value: seq<byte>)
    requires COLON !in name
    ensures AfterColon(name + [COLON] + value) == Some(value)
  {
    var s := name + [COLON] + value;
    if name == [] {
      assert s[1..] == value;
    } else {
      assert s[1..] == name[1..] + [COLON] + value;
      AfterColonOf(name[1..], value);
    }
  }

  // ----- characters -----------------------------------------------------------------------

  /** UTF-8 of a code point below 0x10000 (RFC 3629 section 3). */
  function Utf8(c: nat): seq<byte>
    requires c < 0x10000
  {
    if c < 0x80 then [c]
    else if c < 0x800 then [0xC0 + c / 0x40, 0x80 + c % 0x40]
    else [0xE0 + c / 0x1000, 0x80 + c / 0x40 % 0x40, 0x80 + c % 0x40]
  }

  /** Unicode's white space. */
  predicate IsWhite(c: nat) {
    || 0x09 <= c <= 0x0D || c == 0x20 || c == 0x85 || c == 0xA0 || c == 0x1680
    || 0x2000 <= c <= 0x200A || c == 0x2028 || c == 0x2029 || c == 0x202F || c == 0x205F || c == 0x3000
  }

  /** The byte patterns that are trimmed are those of white space, and the kelvin sign is its. */
  lemma SpaceCodeIff(c: nat)
    requires c < 0x10000
    ensures IsSpaceCode(Utf8(c)) <==> IsWhite(c)
    ensures Utf8(c) == KELVIN <==> c == 0x212A
  {
    if c >= 0x800 {
      ThreePlaces(c);
    } else {
      assert Utf8(c) != KELVIN;
    }
  }

  lemma ThreePlaces(c: nat)
    requires 0x800 <= c < 0x10000
    ensures c == c / 0x1000 * 0x1000 + c / 0x40 % 0x40 * 0x40 + c % 0x40
  {
    DivTwice(c, 0x40, 0x40);
  }

  // ----- base64 ---------------------------------------------------------------------------

  /** The symbol of a six-bit value. */
  function Symbol(v: nat): byte
    requires v < 64
  {
    if v < 26 then 65 + v else if v < 52 then 71 + v else if v < 62 then v - 4 else if v == 62 then 43 else 47
  }

  /** The four symbols of three bytes. */
  function Group(a: byte, b: byte, c: byte): (r: seq<byte>)
    ensures |r| == 4 && forall i :: 0 <= i < 4 ==> IsPlain(r[i]) && r[i] != COLON
  {
    [Symbol(a / 4), Symbol(a % 4 * 16 + b / 16), Symbol(b % 16 * 4 + c / 64), Symbol(c % 64)]
  }

  const PADDING: seq<byte> := [61]

  /** base64.StdEncoding.EncodeToString */
  function Base64(s: seq<byte>): (r: seq<byte>)
    ensures |r| == (|s| + 2) / 3 * 4
    ensures forall i :: 0 <= i < |r| ==> IsPlain(r[i]) && r[i] != COLON
  {
    hide IsPlain;
    if s == [] then []
    else if |s| == 1 then Group(s[0], 0, 0)[..2] + PADDING + PADDING
    else if |s| == 2 then Group(s[0], s[1], 0)[..3] + PADDING
    else Group(s[0], s[1], s[2]) + Base64(s[3..])
  }

  /** The six bits a symbol stands for in the alphabet of RFC 4648 section 4. */
  function SixBits(c: byte): nat {
    if 65 <= c <= 90 then c - 65
    else if 97 <= c <= 122 then c - 71
    else if 48 <= c <= 57 then c + 4
    else if c == 43 then 62
    else if c == 47 then 63
    else 0
  }

  lemma SixBitsOfSymbol(v: nat)
    requires v < 64
    ensures SixBits(Symbol(v)) == v && Symbol(v) != 61
  {}

  /** A base64 reader: four symbols are 24 bits, most significant first, and each padding sign
      takes eight of them away. */
  function Decode64(r: seq<byte>): seq<byte> {
    if |r| < 4 then []
    else
      var n := SixBits(r[0]) * 262144 + SixBits(r[1]) * 4096
               + (if r[2] == 61 then 0 else SixBits(r[2]) * 64) + if r[3] == 61 then 0 else SixBits(r[3]);
      var bytes := [Low(n / 65536), Low(n / 256), Low(n)];
      (if r[2] == 61 then bytes[..1] else if r[3] == 61 then bytes[..2] else bytes) + Decode64(r[4..])
  }

  lemma TwentyFourBits(a: byte, b: byte, c: byte)
    ensures var n := a as int * 65536 + b * 256 + c;
      && (a / 4) * 262144 + (a % 4 * 16 + b / 16) * 4096 + (b % 16 * 4 + c / 64) * 64 + c % 64 == n
      && n / 65536 == a && Low(n / 256) == b && Low(n) == c
  {
    var n := a as int * 65536 + b * 256 + c;
    SplitByte(a, 4);
    SplitByte(b, 16);
    SplitByte(c, 64);
    QuotientUnique(n, 256, a as int * 256 + b, c);
    QuotientUnique(n, 65536, a, b as int * 256 + c);
    ModUnique(a as int * 256 + b, 256, a, b);
    ModUnique(n, 256, a as int * 256 + b, c);
  }

  lemma SplitByte(b: byte, m: nat)
    requires m > 0
    ensures b == m * (b / m) + b % m
  {}

  lemma GroupDecodes(a: byte, b: byte, c: byte, rest: seq<byte>)
    ensures Decode64(Group(a, b, c) + rest) == [a, b, c] + Decode64(rest)
  {
    hide Symbol, SixBits;
    TwentyFourBits(a, b, c);
    SixBitsOfSymbol(a / 4);
    SixBitsOfSymbol(a % 4 * 16 + b / 16);
    SixBitsOfSymbol(b % 16 * 4 + c / 64);
    SixBitsOfSymbol(c % 64);
    assert (Group(a, b, c) + rest)[4..] == rest;
  }

  lemma PaddedDecodes(a: byte, b: byte)
    ensures Decode64(Group(a, 0, 0)[..2] + PADDING + PADDING) == [a]
    ensures Decode64(Group(a, b, 0)[..3] + PADDING) == [a, b]
  {
    hide Symbol, SixBits;
    TwentyFourBits(a, 0, 0);
    TwentyFourBits(a, b, 0);
    SixBitsOfSymbol(a / 4);
    SixBitsOfSymbol(a % 4 * 16);
    SixBitsOfSymbol(a % 4 * 16 + b / 16);
    SixBitsOfSymbol(b % 16 * 4);
  }

  /** Base64 decodes to the bytes it encodes. */
  lemma {:induction false} Base64RoundTrip(s: seq<byte>)
    ensures Decode64(Base64(s)) == s
  {
    hide Symbol, SixBits;
    if s == [] {
    } else if |s| == 1 {
      PaddedDecodes(s[0], 0);
    } else if |s| == 2 {
      PaddedDecodes(s[0], s[1]);
    } else {
      Base64RoundTrip(s[3..]);
      GroupDecodes(s[0], s[1], s[2], Base64(s[3..]));
    }
  }
}
