/** Dictionaries: libtokencap prints the tokens it captures (AFLGo/libtokencap/libtokencap.so.c:99-134),
    and the fuzzer reads them back (`load_extras_file`, AFLGo/afl-fuzz.c:1836-1967). */
module Dictionary {
  import opened Bytes
  import opened Platform

  const MIN_AUTO_EXTRA: nat := 3
  const MAX_AUTO_EXTRA: nat := 32
  const MAX_DICT_FILE: nat := 128
  const MAX_LINE: nat := 8192

  const NEWLINE: byte := 10
  const QUOTE: byte := 34
  const HASH: byte := 35
  const PLUS: byte := 43
  const MINUS: byte := 45
  const EQUALS: byte := 61
  const AT: byte := 64
  const BACKSLASH: byte := 92
  const UNDERSCORE: byte := 95
  const X: byte := 120

  // ----- C strings and character classes -----

  /** The bytes before the first NUL. */
  function CString(s: seq<byte>): (r: seq<byte>) {
    if s == [] || s[0] == 0 then [] else [s[0]] + CString(s[1..])
  }

  lemma {:induction false} CStringWhole(s: seq<byte>)
    requires 0 !in s
    ensures CString(s) == s
  {
    if s != [] {
      CStringWhole(s[1..]);
    }
  }

  /** A string without a NUL is what comes before the NUL that follows it. */
  lemma {:induction false} CStringEnds(s: seq<byte>, rest: seq<byte>)
    requires 0 !in s && rest != [] && rest[0] == 0
    ensures CString(s + rest) == s
  {
    if s != [] {
      assert (s + rest)[1..] == s[1..] + rest;
      CStringEnds(s[1..], rest);
    }
  }

  predicate IsDigit(c: byte) {
    48 <= c <= 57
  }

  predicate IsLabel(c: byte) {
    IsDigit(c) || 65 <= c <= 90 || 97 <= c <= 122 || c == UNDERSCORE
  }

  predicate IsSpace(c: byte) {
    9 <= c <= 13 || c == 32
  }

  predicate IsSpaceOrEquals(c: byte) {
    IsSpace(c) || c == EQUALS
  }

  predicate IsHexDigit(c: byte) {
    IsDigit(c) || 65 <= c <= 70 || 97 <= c <= 102
  }

  /** The place of the lower-cased digit in "0123456789abcdef". */
  function HexValue(c: byte): (v: nat)
    requires IsHexDigit(c)
    ensures v < 16
  {
    if c <= 57 then c - 48 else if c <= 70 then c - 55 else c - 87
  }

  function HexDigit(v: nat): (c: byte)
    requires v < 16
    ensures IsHexDigit(c) && HexValue(c) == v
  {
    if v < 10 then 48 + v else 87 + v
  }

  // ----- the printer -----

  predicate NeedsEscape(b: byte) {
    b <= 31 || 127 <= b || b == QUOTE || b == BACKSLASH
  }

  function EscapeByte(b: byte): (r: seq<byte>)
    ensures |r| <= 4
  {
    if NeedsEscape(b) then [BACKSLASH, X, HexDigit(b / 16), HexDigit(b % 16)] else [b]
  }

  function Escape(t: seq<byte>): seq<byte> {
    if t == [] then [] else EscapeByte(t[0]) + Escape(t[1..])
  }

  lemma EscapeNothing()
    ensures Escape([]) == []
  {
  }

  lemma {:induction false} EscapeAppend(t: seq<byte>, b: byte)
    ensures Escape(t + [b]) == Escape(t) + EscapeByte(b)
  {
    if t == [] {
      assert [b][1..] == [];
      assert Escape([]) == [];
    } else {
      assert (t + [b])[1..] == t[1..] + [b];
      EscapeAppend(t[1..], b);
    }
  }

  /** Escaped text is printable: no NUL, no newline, nothing the reader would refuse. */
  lemma {:induction false} EscapePrintable(t: seq<byte>)
    ensures |Escape(t)| <= 4 * |t|
    ensures forall c :: c in Escape(t) ==> 32 <= c < 127
  {
    if t != [] {
      EscapePrintable(t[1..]);
    }
  }

  /** Text without quotes and backslashes is printed as it is. */
  lemma {:induction false} EscapePlain(t: seq<byte>)
    requires forall k :: 0 <= k < |t| ==> 32 <= t[k] < 127 && t[k] != QUOTE && t[k] != BACKSLASH
    ensures Escape(t) == t
  {
    if t != [] {
      EscapePlain(t[1..]);
      assert t == [t[0]] + t[1..];
    }
  }

  /** Memory is readable for `len` bytes or, in text mode, up to a NUL. */
  predicate Readable(ptr: seq<byte>, len: nat, isText: bool) {
    len <= |ptr| || (isText && 0 in ptr)
  }

  /** The bytes the printer looks at: all `len` of them, or in text mode those before the first NUL. */
  function Part(ptr: seq<byte>, len: nat, isText: bool): (t: seq<byte>)
    requires Readable(ptr, len, isText)
  {
    var seen := if len <= |ptr| then ptr[..len] else ptr;
    if isText then CString(seen) else seen
  }

  predicate Printed(len: nat) {
    MIN_AUTO_EXTRA <= len <= MAX_AUTO_EXTRA
  }

  /** One line of the token file. */
  function DictLine(t: seq<byte>): seq<byte> {
    [QUOTE] + Escape(t) + [QUOTE, NEWLINE]
  }

  method EmitByte(buf: array<byte>, pos: nat, b: byte) returns (next: nat)
    requires pos + 4 <= buf.Length
    modifies buf
    ensures pos <= next <= pos + 4 && buf[..next] == old(buf[..pos]) + EscapeByte(b)
  {
    if NeedsEscape(b) {
      buf[pos], buf[pos + 1], buf[pos + 2], buf[pos + 3] := BACKSLASH, X, HexDigit(b / 16), HexDigit(b % 16);
      next := pos + 4;
    } else {
      buf[pos] := b;
      next := pos + 1;
    }
  }

  /** `__tokencap_dump`: `written` is what goes to the file. */
  method Dump(ptr: seq<byte>, len: nat, isText: bool) returns (written: seq<byte>)
    requires Readable(ptr, len, isText)
    ensures written == if Printed(len) then DictLine(Part(ptr, len, isText)) else []
  {
    hide Part, Escape, CString, EscapeByte;
    if len < MIN_AUTO_EXTRA || len > MAX_AUTO_EXTRA {
      return [];
    }
    ghost var part := Part(ptr, len, isText);
    EscapeNothing();
    PartPrefix(ptr, len, isText);
    var buf := new byte[MAX_AUTO_EXTRA * 4 + 1];
    var pos, i := 0, 0;
    while i < len
      invariant i <= len && i <= |part|
      invariant pos <= 4 * i
      invariant buf[..pos] == Escape(part[..i])
    {
      if isText && ptr[i] == 0 {
        break;
      }
      assert part[..i + 1] == part[..i] + [ptr[i]];
      EscapeAppend(part[..i], ptr[i]);
      pos := EmitByte(buf, pos, ptr[i]);
      i := i + 1;
    }
    assert part[..i] == part;
    buf[pos] := 0;
    PrintedText(part, buf[..], pos);
    written := [QUOTE] + CString(buf[..]) + [QUOTE, NEWLINE];
  }

  /** What `%s` prints of the buffer. */
  lemma PrintedText(part: seq<byte>, buf: seq<byte>, pos: nat)
    requires pos < |buf| && buf[..pos] == Escape(part) && buf[pos] == 0
    ensures CString(buf) == Escape(part)
  {
    EscapePrintable(part);
    CStringEnds(Escape(part), buf[pos..]);
    assert buf == buf[..pos] + buf[pos..];
  }

  /** The printed part is a prefix of what is read, and ends at a NUL or at `len`. */
  lemma PartPrefix(ptr: seq<byte>, len: nat, isText: bool)
    requires Readable(ptr, len, isText)
    ensures var part := Part(ptr, len, isText);
      && |part| <= len && |part| <= |ptr| && part == ptr[..|part|]
      && (isText ==> 0 !in part)
      && (|part| < len ==> isText && |part| < |ptr| && ptr[|part|] == 0)
  {
    var seen := if len <= |ptr| then ptr[..len] else ptr;
    CStringPrefix(seen);
  }

  lemma {:induction false} CStringPrefix(s: seq<byte>)
    ensures var r := CString(s); |r| <= |s| && r == s[..|r|] && 0 !in r && (|r| < |s| ==> s[|r|] == 0)
  {
    if s != [] && s[0] != 0 {
      CStringPrefix(s[1..]);
    }
  }

  // ----- the reader: one line -----

  /** Positions from `i` on whose byte is in a class. */
  function SkipWhile(s: seq<byte>, i: nat, class_: byte -> bool): (j: nat)
    requires i <= |s|
    ensures i <= j <= |s|
    decreases |s| - i
  {
    if i < |s| && class_(s[i]) then SkipWhile(s, i + 1, class_) else i
  }

  method Skip(s: seq<byte>, i: nat, class_: byte -> bool) returns (j: nat)
    requires i <= |s|
    ensures i <= j <= |s| && j == SkipWhile(s, i, class_)
  {
    j := i;
    while j < |s| && class_(s[j])
      invariant i <= j <= |s| && SkipWhile(s, j, class_) == SkipWhile(s, i, class_)
    {
      j := j + 1;
    }
  }

  function TrimRight(s: seq<byte>): (r: seq<byte>)
    ensures |r| <= |s| && r == s[..|r|]
  {
    if s != [] && IsSpace(s[|s| - 1]) then TrimRight(s[..|s| - 1]) else s
  }

  /** The magnitude of a run of digits. */
  function Digits(s: seq<byte>, i: nat, acc: nat): nat
    requires i <= |s|
    decreases |s| - i
  {
    if i < |s| && IsDigit(s[i]) then Digits(s, i + 1, 10 * acc + s[i] - 48) else acc
  }

  /** `atoi`, for values that fit an `int`, converted to an unsigned word as the comparison does. */
  function AtoiAsUnsigned(s: seq<byte>, i: nat): nat
    requires i <= |s|
  {
    var j := SkipWhile(s, i, IsSpace);
    if j < |s| && s[j] == MINUS then (U32 - Digits(s, j + 1, 0)) % U32
    else Digits(s, if j < |s| && s[j] == PLUS then j + 1 else j, 0)
  }

  function Prepend<T>(a: seq<T>, rest: Outcome<seq<T>>): Outcome<seq<T>> {
    match rest
    case Done(v) => Done(a + v)
    case Fatal => Fatal
  }

  lemma PrependTwice<T>(a: seq<T>, b: seq<T>, r: Outcome<seq<T>>)
    ensures Prepend(a, Prepend(b, r)) == Prepend(a + b, r)
  {
    if r.Done? {
      assert a + (b + r.value) == a + b + r.value;
    }
  }

  lemma PrependFatal<T>(a: seq<T>)
    ensures Prepend(a, Fatal) == Fatal
  {
  }

  lemma PrependNone<T>(a: seq<T>, r: Outcome<seq<T>>)
    ensures Prepend([], r) == r && Prepend(a, Done([])) == Done(a)
  {
    if r.Done? {
      assert [] + r.value == r.value;
    }
    assert a + [] == a;
  }

  /** Undoes the escapes of a keyword: `\\`, `\"` and `\xNN`. */
  function Unescape(s: seq<byte>): Outcome<seq<byte>> {
    if s == [] then Done([])
    else if s[0] <= 31 || 128 <= s[0] then Fatal
    else if s[0] != BACKSLASH then Prepend([s[0]], Unescape(s[1..]))
    else if |s| > 1 && (s[1] == BACKSLASH || s[1] == QUOTE) then Prepend([s[1]], Unescape(s[2..]))
    else if |s| > 3 && s[1] == X && IsHexDigit(s[2]) && IsHexDigit(s[3]) then
      Prepend([HexByte(s[2], s[3])], Unescape(s[4..]))
    else Fatal
  }

  function HexByte(h: byte, l: byte): byte
    requires IsHexDigit(h) && IsHexDigit(l)
  {
    HexValue(h) * 16 + HexValue(l)
  }

  /** The loop of the reader over the text between the quotes. */
  method UnescapeKeyword(s: seq<byte>) returns (r: Outcome<seq<byte>>)
    requires 0 !in s
    ensures r == Unescape(s)
  {
    hide Unescape, Prepend;
    var data, l := [], 0;
    assert s[0..] == s;
    PrependNone(data, Unescape(s));
    while l < |s|
      invariant l <= |s| && Unescape(s) == Prepend(data, Unescape(s[l..]))
    {
      UnescapeAt(s, l, data);
      if s[l] <= 31 || 128 <= s[l] {
        return Fatal;
      } else if s[l] == BACKSLASH {
        l := l + 1;
        if l < |s| && (s[l] == BACKSLASH || s[l] == QUOTE) {
          data := data + [s[l]];
          l := l + 1;
        } else {
          if l + 2 >= |s| || s[l] != X || !IsHexDigit(s[l + 1]) || !IsHexDigit(s[l + 2]) {
            return Fatal;
          }
          data := data + [HexByte(s[l + 1], s[l + 2])];
          l := l + 3;
        }
      } else {
        data := data + [s[l]];
        l := l + 1;
      }
    }
    UnescapeEnd(s, data);
    return Done(data);
  }

  lemma UnescapeEnd(s: seq<byte>, data: seq<byte>)
    ensures Prepend(data, Unescape(s[|s|..])) == Done(data)
  {
    assert s[|s|..] == [];
    PrependNone(data, Done(data));
  }

  /** One escape or one plain byte at `l`, in terms of the rest of the text. */
  lemma UnescapeAt(s: seq<byte>, l: nat, data: seq<byte>)
    requires l < |s|
    ensures var all := Prepend(data, Unescape(s[l..]));
      if s[l] <= 31 || 128 <= s[l] then all == Fatal
      else if s[l] != BACKSLASH then all == Prepend(data + [s[l]], Unescape(s[l + 1..]))
      else if l + 1 < |s| && (s[l + 1] == BACKSLASH || s[l + 1] == QUOTE) then
        all == Prepend(data + [s[l + 1]], Unescape(s[l + 2..]))
      else if l + 3 < |s| && s[l + 1] == X && IsHexDigit(s[l + 2]) && IsHexDigit(s[l + 3]) then
        all == Prepend(data + [HexByte(s[l + 2], s[l + 3])], Unescape(s[l + 4..]))
      else all == Fatal
  {
    var t := s[l..];
    assert t[1..] == s[l + 1..];
    if l + 1 < |s| && t[0] == BACKSLASH {
      assert t[2..] == s[l + 2..];
      PrependTwice(data, [t[1]], Unescape(t[2..]));
      if l + 3 < |s| {
        assert t[4..] == s[l + 4..];
        if IsHexDigit(t[2]) && IsHexDigit(t[3]) {
          PrependTwice(data, [HexByte(t[2], t[3])], Unescape(t[4..]));
        }
      }
    } else {
      PrependTwice(data, [t[0]], Unescape(t[1..]));
    }
  }

  datatype Line = Ignored | Keyword(data: seq<byte>) | Malformed

  /** What a line of a dictionary means.  `level` is the dictionary level asked for. */
  function ParseLine(line: seq<byte>, level: nat): Line {
    var s := TrimRight(line[SkipWhile(line, 0, IsSpace)..]);
    if s == [] || s[0] == HASH then Ignored
    else if s[|s| - 1] != QUOTE then Malformed
    else ParseBody(s[..|s| - 1], level)
  }

  /** The line without the closing quote: a label, perhaps with a level, and the keyword. */
  function ParseBody(s: seq<byte>, level: nat): Line {
    var l := SkipWhile(s, 0, IsLabel);
    if l < |s| && s[l] == AT && AtoiAsUnsigned(s, l + 1) > level then Ignored
    else
      var m := if l < |s| && s[l] == AT then SkipWhile(s, l + 1, IsDigit) else l;
      var q := SkipWhile(s, m, IsSpaceOrEquals);
      if q == |s| || s[q] != QUOTE || q + 1 == |s| then Malformed
      else match Unescape(s[q + 1..])
        case Fatal => Malformed
        case Done(data) => if |data| > MAX_DICT_FILE then Malformed else Keyword(data)
  }

  /** One turn of the loop of `load_extras_file`; a malformed line is fatal. */
  method ReadLine(line: seq<byte>, level: nat) returns (r: Line)
    requires 0 !in line
    ensures r == ParseLine(line, level)
  {
    hide SkipWhile, ParseBody;
    var lptr := Skip(line, 0, IsSpace);
    var s := line[lptr..];
    var rptr := |s|;
    assert s[..rptr] == s;
    while rptr > 0 && IsSpace(s[rptr - 1])
      invariant rptr <= |s| && TrimRight(s) == TrimRight(s[..rptr])
    {
      assert s[..rptr][..rptr - 1] == s[..rptr - 1];
      rptr := rptr - 1;
    }
    s := s[..rptr];
    if s == [] || s[0] == HASH {
      return Ignored;
    }
    if s[|s| - 1] != QUOTE {
      return Malformed;
    }
    r := ReadBody(s[..|s| - 1], level);
  }

  method ReadBody(s: seq<byte>, level: nat) returns (r: Line)
    requires 0 !in s
    ensures r == ParseBody(s, level)
  {
    hide SkipWhile, AtoiAsUnsigned, Unescape;
    var l := Skip(s, 0, IsLabel);
    if l < |s| && s[l] == AT {
      if AtoiAsUnsigned(s, l + 1) > level {
        return Ignored;
      }
      l := Skip(s, l + 1, IsDigit);
    }
    l := Skip(s, l, IsSpaceOrEquals);
    if l == |s| || s[l] != QUOTE {
      return Malformed;
    }
    l := l + 1;
    if l == |s| {
      return Malformed;
    }
    var data := UnescapeKeyword(s[l..]);
    if data.Fatal? || |data.value| > MAX_DICT_FILE {
      return Malformed;
    }
    return Keyword(data.value);
  }

  // ----- the reader: the file -----

  /** How many bytes `fgets` takes: up to a newline, and no more than the buffer holds. */
  function LineLength(file: seq<byte>, room: nat): (n: nat)
    requires file != [] && 0 < room
    ensures 0 < n <= |file|
  {
    if file[0] == NEWLINE || room == 1 || |file| == 1 then 1 else 1 + LineLength(file[1..], room - 1)
  }

  /** What `load_extras_file` adds to the tokens. */
  function Load(file: seq<byte>, level: nat): Outcome<seq<seq<byte>>> {
    if file == [] then Done([])
    else
      var n := LineLength(file, MAX_LINE - 1);
      match ParseLine(CString(file[..n]), level)
      case Ignored => Load(file[n..], level)
      case Malformed => Fatal
      case Keyword(data) => Prepend([data], Load(file[n..], level))
  }

  method LoadExtrasFile(file: seq<byte>, level: nat) returns (r: Outcome<seq<seq<byte>>>)
    ensures r == Load(file, level)
  {
    hide ParseLine, Prepend;
    var extras: seq<seq<byte>> := [];
    var rest := file;
    PrependNone(extras, Load(file, level));
    while rest != []
      invariant Load(file, level) == Prepend(extras, Load(rest, level))
      decreases |rest|
    {
      var n := LineLength(rest, MAX_LINE - 1);
      CStringPrefix(rest[..n]);
      var line := ReadLine(CString(rest[..n]), level);
      match line {
        case Ignored =>
        case Malformed =>
          PrependFatal(extras);
          return Fatal;
        case Keyword(data) =>
          PrependTwice(extras, [data], Load(rest[n..], level));
          extras := extras + [data];
      }
      rest := rest[n..];
    }
    PrependNone(extras, Load(rest, level));
    return Done(extras);
  }

  // ----- the round trip -----

  lemma {:induction false} UnescapeEscape(t: seq<byte>)
    ensures Unescape(Escape(t)) == Done(t)
  {
    if t != [] {
      UnescapeEscape(t[1..]);
      var rest := Escape(t[1..]);
      var e := EscapeByte(t[0]) + rest;
      if NeedsEscape(t[0]) {
        assert e[4..] == rest;
        assert HexByte(e[2], e[3]) == t[0];
      } else {
        assert e[1..] == rest;
      }
      assert [t[0]] + t[1..] == t;
    }
  }

  lemma {:induction false} SkipNone(s: seq<byte>, i: nat, class_: byte -> bool)
    requires i < |s| && !class_(s[i])
    ensures SkipWhile(s, i, class_) == i
  {
  }

  /** A printed line reads back as the token; an empty one is refused. */
  lemma ParseDictLine(t: seq<byte>, level: nat)
    requires |t| <= MAX_DICT_FILE
    ensures ParseLine(DictLine(t), level) == if t == [] then Malformed else Keyword(t)
  {
    hide Unescape, Escape;
    var e := Escape(t);
    var line := DictLine(t);
    SkipNone(line, 0, IsSpace);
    assert line[0..] == line;
    var q := [QUOTE] + e + [QUOTE];
    assert line[..|line| - 1] == q;
    assert TrimRight(q) == q;
    assert TrimRight(line) == q;
    var body := [QUOTE] + e;
    assert q[..|q| - 1] == body;
    SkipNone(body, 0, IsLabel);
    SkipNone(body, 0, IsSpaceOrEquals);
    assert body[1..] == e;
    UnescapeEscape(t);
    EscapeEmpty(t);
  }

  lemma EscapeEmpty(t: seq<byte>)
    ensures Escape(t) == [] <==> t == []
  {
  }

  // ----- other spellings -----

  /** A hexadecimal digit of either case. */
  predicate IsHexOf(c: byte, v: nat) {
    if v < 10 then c == 48 + v else c == 55 + v || c == 87 + v
  }

  /** The ways to write a byte in a keyword: as it is, behind a backslash, or in hexadecimal. */
  predicate Spells(e: seq<byte>, b: byte) {
    || (e == [b] && 32 <= b < 128 && b != BACKSLASH)
    || (e == [BACKSLASH, b] && (b == BACKSLASH || b == QUOTE))
    || (|e| == 4 && e[..2] == [BACKSLASH, X] && IsHexOf(e[2], b / 16) && IsHexOf(e[3], b % 16))
  }

  function Concat(parts: seq<seq<byte>>): seq<byte> {
    if parts == [] then [] else parts[0] + Concat(parts[1..])
  }

  lemma UnescapeOne(e: seq<byte>, b: byte, rest: seq<byte>)
    requires Spells(e, b)
    ensures Unescape(e + rest) == Prepend([b], Unescape(rest))
  {
    var s := e + rest;
    assert s[|e|..] == rest;
    if |e| == 4 {
      assert s[1] == e[..2][1] && s[2] == e[2] && s[3] == e[3];
      assert HexByte(s[2], s[3]) == b;
    }
  }

  /** However the bytes of a keyword are spelled, they are read. */
  lemma {:induction false} UnescapeSpelled(parts: seq<seq<byte>>, t: seq<byte>)
    requires |parts| == |t| && forall i :: 0 <= i < |t| ==> Spells(parts[i], t[i])
    ensures Unescape(Concat(parts)) == Done(t)
  {
    hide Spells;
    if t != [] {
      UnescapeSpelled(parts[1..], t[1..]);
      UnescapeOne(parts[0], t[0], Concat(parts[1..]));
      assert [t[0]] + t[1..] == t;
    }
  }

  lemma {:induction false} SkipTo(s: seq<byte>, i: nat, j: nat, class_: byte -> bool)
    requires i <= j < |s| && !class_(s[j]) && forall k :: i <= k < j ==> class_(s[k])
    ensures SkipWhile(s, i, class_) == j
    decreases j - i
  {
    if i < j {
      SkipTo(s, i + 1, j, class_);
    }
  }

  /** Letters, digits and underscores; not the dashes the comment in the source speaks of. */
  ghost predicate LabelText(name: seq<byte>) {
    forall k :: 0 <= k < |name| ==>
      48 <= name[k] <= 57 || 65 <= name[k] <= 90 || 97 <= name[k] <= 122 || name[k] == 95
  }

  lemma ReadsLevel(s: seq<byte>, i: nat, n: nat)
    requires i + 2 < |s| && n <= 9 && s[i] == 48 + n && s[i + 1] == EQUALS && s[i + 2] == QUOTE
    ensures AtoiAsUnsigned(s, i) == n
    ensures SkipWhile(s, i, IsDigit) == i + 1 && SkipWhile(s, i + 1, IsSpaceOrEquals) == i + 2
  {
    SkipNone(s, i, IsSpace);
    assert Digits(s, i + 1, n) == n;
    SkipTo(s, i, i + 1, IsDigit);
    SkipTo(s, i + 1, i + 2, IsSpaceOrEquals);
  }

  /** Any other byte behind the label, a dash for one, makes the line malformed. */
  lemma OddLabel(name: seq<byte>, c: byte, rest: seq<byte>, level: nat)
    requires LabelText(name) && !LabelText([c]) && !IsSpace(c) && c !in {EQUALS, AT, QUOTE}
    requires name == [] ==> c != HASH
    ensures ParseLine(name + [c] + rest + [QUOTE], level) == Malformed
  {
    var body := name + [c] + rest;
    var line := body + [QUOTE];
    hide Unescape;
    assert [c][0] == c;
    SkipNone(line, 0, IsSpace);
    assert line[0..] == line && TrimRight(line) == line && line[..|line| - 1] == body;
    SkipTo(body, 0, |name|, IsLabel);
    SkipNone(body, |name|, IsSpaceOrEquals);
  }

  lemma ReadsKeyword(s: seq<byte>, q: nat, t: seq<byte>)
    requires q < |s| && s[q + 1..] == Escape(t) && t != []
    ensures q + 1 < |s| && Unescape(s[q + 1..]) == Done(t)
  {
    EscapeEmpty(t);
    UnescapeEscape(t);
  }

  /** The line loses its newline and its closing quote. */
  lemma ParseHeaded(head: seq<byte>, t: seq<byte>, level: nat)
    requires head != [] && !IsSpace(head[0]) && head[0] != HASH
    ensures ParseLine(head + DictLine(t), level) == ParseBody(head + [QUOTE] + Escape(t), level)
  {
    hide ParseBody, Escape;
    var line, q := head + DictLine(t), head + [QUOTE] + Escape(t) + [QUOTE];
    SkipNone(line, 0, IsSpace);
    assert line[0..] == line && line[..|line| - 1] == q;
    assert TrimRight(q) == q && TrimRight(line) == q;
    assert q[..|q| - 1] == head + [QUOTE] + Escape(t);
  }

  lemma LabelledBody(s: seq<byte>, l: nat, t: seq<byte>, level: nat)
    requires l + 1 < |s| && (forall k :: 0 <= k < l ==> IsLabel(s[k])) && s[l] == EQUALS && s[l + 1] == QUOTE
    requires s[l + 2..] == Escape(t) && 0 < |t| <= MAX_DICT_FILE
    ensures ParseBody(s, level) == Keyword(t)
  {
    hide Unescape, Escape;
    SkipTo(s, 0, l, IsLabel);
    SkipTo(s, l, l + 1, IsSpaceOrEquals);
    ReadsKeyword(s, l + 1, t);
  }

  /** A labelled line is read for its keyword. */
  lemma ParseLabelled(name: seq<byte>, t: seq<byte>, level: nat)
    requires LabelText(name) && 0 < |t| <= MAX_DICT_FILE
    ensures ParseLine(name + [EQUALS] + DictLine(t), level) == Keyword(t)
  {
    hide Escape, ParseLine, ParseBody;
    var head := name + [EQUALS];
    var body := head + [QUOTE] + Escape(t);
    ParseHeaded(head, t, level);
    assert body[|name| + 2..] == Escape(t);
    LabelledBody(body, |name|, t, level);
  }

  lemma LevelledBody(s: seq<byte>, l: nat, n: nat, t: seq<byte>, level: nat)
    requires l + 3 < |s| && (forall k :: 0 <= k < l ==> IsLabel(s[k])) && s[l] == AT && n <= 9
    requires s[l + 1] == 48 + n && s[l + 2] == EQUALS && s[l + 3] == QUOTE
    requires s[l + 4..] == Escape(t) && 0 < |t| <= MAX_DICT_FILE
    ensures ParseBody(s, level) == if n > level then Ignored else Keyword(t)
  {
    hide Unescape, Escape, AtoiAsUnsigned;
    SkipTo(s, 0, l, IsLabel);
    ReadsLevel(s, l + 1, n);
    ReadsKeyword(s, l + 3, t);
  }

  /** With a level behind the label it is read only if that is not above the level asked for. */
  lemma ParseLevelled(name: seq<byte>, n: nat, t: seq<byte>, level: nat)
    requires LabelText(name) && n <= 9 && 0 < |t| <= MAX_DICT_FILE
    ensures ParseLine(name + [AT, 48 + n, EQUALS] + DictLine(t), level) == if n > level then Ignored else Keyword(t)
  {
    hide Escape, ParseLine, ParseBody;
    var head := name + [AT, 48 + n, EQUALS];
    var body := head + [QUOTE] + Escape(t);
    ParseHeaded(head, t, level);
    assert body[|name| + 4..] == Escape(t);
    LevelledBody(body, |name|, n, t, level);
  }

  // ----- the whole file -----

  /** `fgets` stops after the printed line. */
  lemma DictLineLength(t: seq<byte>, rest: seq<byte>)
    requires |t| <= MAX_AUTO_EXTRA
    ensures LineLength(DictLine(t) + rest, MAX_LINE - 1) == |DictLine(t)|
  {
    EscapePrintable(t);
    var shown := [QUOTE] + Escape(t) + [QUOTE];
    assert NEWLINE !in shown;
    LineStops(shown, rest, MAX_LINE - 1);
    assert DictLine(t) == shown + [NEWLINE];
  }

  lemma {:induction false} LineStops(s: seq<byte>, rest: seq<byte>, room: nat)
    requires NEWLINE !in s && |s| < room
    ensures LineLength(s + [NEWLINE] + rest, room) == |s| + 1
  {
    if s != [] {
      assert (s + [NEWLINE] + rest)[1..] == s[1..] + [NEWLINE] + rest;
      LineStops(s[1..], rest, room - 1);
    }
  }

  /** A call of the printer. */
  datatype Capture = Capture(ptr: seq<byte>, len: nat, isText: bool)

  ghost predicate AllReadable(captures: seq<Capture>) {
    forall i :: 0 <= i < |captures| ==> Readable(captures[i].ptr, captures[i].len, captures[i].isText)
  }

  /** The file left by a run of captures. */
  function TokenFile(captures: seq<Capture>): seq<byte>
    requires AllReadable(captures)
  {
    if captures == [] then []
    else
      var c := captures[0];
      (if Printed(c.len) then DictLine(Part(c.ptr, c.len, c.isText)) else []) + TokenFile(captures[1..])
  }

  /** The printed parts, in order. */
  function Parts(captures: seq<Capture>): seq<seq<byte>>
    requires AllReadable(captures)
  {
    if captures == [] then []
    else
      var c := captures[0];
      (if Printed(c.len) then [Part(c.ptr, c.len, c.isText)] else []) + Parts(captures[1..])
  }

  /** Reading the file back gives the tokens in order, whatever their bytes, unless one of them was empty
      text: then the reader gives up. */
  lemma {:induction false} LoadReadsBack(captures: seq<Capture>, level: nat)
    requires AllReadable(captures)
    ensures Load(TokenFile(captures), level) == if [] in Parts(captures) then Fatal else Done(Parts(captures))
  {
    hide Part, ParseLine, DictLine;
    if captures != [] {
      var c, tail := captures[0], captures[1..];
      LoadReadsBack(tail, level);
      var rest := TokenFile(tail);
      if Printed(c.len) {
        var t := Part(c.ptr, c.len, c.isText);
        PartPrefix(c.ptr, c.len, c.isText);
        LoadOne(t, rest, level);
      } else {
        assert [] + rest == rest && [] + Parts(tail) == Parts(tail);
      }
    }
  }

  /** It does give up: on an empty string that `strncmp` compares up to a length of three. */
  lemma EmptyTextFails(level: nat)
    ensures Load(TokenFile([Capture([0], 3, true)]), level) == Fatal
  {
    var captures := [Capture([0], 3, true)];
    assert Part([0], 3, true) == [];
    assert captures[1..] == [] && Parts(captures) == [[]] + Parts([]);
    LoadReadsBack(captures, level);
  }

  lemma LoadOne(t: seq<byte>, rest: seq<byte>, level: nat)
    requires |t| <= MAX_AUTO_EXTRA
    ensures Load(DictLine(t) + rest, level) == if t == [] then Fatal else Prepend([t], Load(rest, level))
  {
    DictLineLength(t, rest);
    ParseDictLine(t, level);
    DictLineText(t);
    hide DictLine, ParseLine, LineLength;
    var line := DictLine(t);
    assert (line + rest)[..|line|] == line && (line + rest)[|line|..] == rest;
  }

  lemma DictLineText(t: seq<byte>)
    ensures DictLine(t) != [] && CString(DictLine(t)) == DictLine(t)
  {
    EscapePrintable(t);
    CStringWhole(DictLine(t));
  }

  /** Every loaded token has between 1 and 128 bytes. */
  lemma {:induction false} LoadedSizes(file: seq<byte>, level: nat)
    ensures Load(file, level).Done? ==> forall d :: d in Load(file, level).value ==> 1 <= |d| <= MAX_DICT_FILE
  {
    hide ParseLine, CString, LineLength;
    if file != [] {
      var n := LineLength(file, MAX_LINE - 1);
      LoadedSizes(file[n..], level);
      KeywordSize(CString(file[..n]), level);
    }
  }

  lemma KeywordSize(line: seq<byte>, level: nat)
    ensures ParseLine(line, level).Keyword? ==> 1 <= |ParseLine(line, level).data| <= MAX_DICT_FILE
  {
    hide SkipWhile, TrimRight, AtoiAsUnsigned, Unescape;
    forall s: seq<byte> ensures s != [] && Unescape(s).Done? ==> Unescape(s).value != [] {
      UnescapedSome(s);
    }
  }

  lemma UnescapedSome(s: seq<byte>)
    ensures s != [] && Unescape(s).Done? ==> Unescape(s).value != []
  {
  }
}
