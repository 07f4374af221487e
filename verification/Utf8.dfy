/** UTF-8 (RFC 3629) and the text functions the command parser is built on. */
module Utf8 {
  import opened Common

  predicate Continuation(b: Byte) {
    0x80 <= b < 0xC0
  }

  /** The six payload bits of a continuation byte. */
  function Low(b: Byte): int {
    b - 0x80
  }

  /** The first character and the number of bytes it takes; rejects overlong forms,
      surrogates and values beyond U+10FFFF. */
  function DecodeOne(b: seq<Byte>): (r: Option<(char, nat)>)
    ensures r.Some? ==> 1 <= r.value.1 <= |b| && r.value.1 <= 4
  {
    if b == [] then None
    else
      var head: int := b[0];
      if head < 0x80 then Some((head as char, 1))
      else if 0xC0 <= head < 0xE0 && |b| >= 2 && Continuation(b[1]) then
        var code := (head - 0xC0) * 0x40 + Low(b[1]);
        if code >= 0x80 then Some((code as char, 2)) else None
      else if 0xE0 <= head < 0xF0 && |b| >= 3 && Continuation(b[1]) && Continuation(b[2]) then
        var code := ((head - 0xE0) * 0x40 + Low(b[1])) * 0x40 + Low(b[2]);
        if code >= 0x800 && !(0xD800 <= code < 0xE000) then Some((code as char, 3)) else None
      else if 0xF0 <= head < 0xF8 && |b| >= 4 && Continuation(b[1]) && Continuation(b[2]) && Continuation(b[3]) then
        var code := (((head - 0xF0) * 0x40 + Low(b[1])) * 0x40 + Low(b[2])) * 0x40 + Low(b[3]);
        if 0x1_0000 <= code < 0x11_0000 then Some((code as char, 4)) else None
      else None
  }

  function Decode(b: seq<Byte>): Option<string> {
    if b == [] then Some([])
    else
      match DecodeOne(b)
      case None => None
      case Some((c, n)) =>
        match Decode(b[n..])
        case None => None
        case Some(rest) => Some([c] + rest)
  }

  function EncodeOne(c: char): (b: seq<Byte>)
    ensures 1 <= |b| <= 4
    ensures c < '\U{80}' ==> b == [c as int]
  {
    var code := c as int;
    var top18 := code / 0x40;
    var top12 := top18 / 0x40;
    if code < 0x80 then [code]
    else if code < 0x800 then [0xC0 + top18, 0x80 + code % 0x40]
    else if code < 0x1_0000 then [0xE0 + top12, 0x80 + top18 % 0x40, 0x80 + code % 0x40]
    else [0xF0 + top12 / 0x40, 0x80 + top12 % 0x40, 0x80 + top18 % 0x40, 0x80 + code % 0x40]
  }

  function Encode(s: string): seq<Byte> {
    if s == [] then [] else EncodeOne(s[0]) + Encode(s[1..])
  }

  /** The table of section 3 of RFC 3629: how many bytes a character takes, and which bits
      of it each byte holds. */
  lemma EncodedLayout(c: char)
    ensures var n, b := c as int, EncodeOne(c);
            if n <= 0x7F then b == [n]
            else if n <= 0x7FF then
              var top: int := b[0] - 0xC0;
              && |b| == 2 && 0xC0 <= b[0] < 0xE0 && Continuation(b[1])
              && n == top * 0x40 + Low(b[1])
            else if n <= 0xFFFF then
              var top: int := b[0] - 0xE0;
              && |b| == 3 && 0xE0 <= b[0] < 0xF0 && Continuation(b[1]) && Continuation(b[2])
              && n == top * 0x1000 + Low(b[1]) * 0x40 + Low(b[2])
            else
              var top: int := b[0] - 0xF0;
              && |b| == 4 && 0xF0 <= b[0] < 0xF8 && Continuation(b[1]) && Continuation(b[2]) && Continuation(b[3])
              && n == top * 0x4_0000 + Low(b[1]) * 0x1000 + Low(b[2]) * 0x40 + Low(b[3])
  {
  }

  lemma DecodeOneInverts(c: char, rest: seq<Byte>)
    ensures DecodeOne(EncodeOne(c) + rest) == Some((c, |EncodeOne(c)|))
  {
    var all := EncodeOne(c) + rest;
    assert forall i :: 0 <= i < |EncodeOne(c)| ==> all[i] == EncodeOne(c)[i];
  }

  /** Every string survives encoding and decoding. */
  lemma {:induction false} DecodeInverts(s: string)
    ensures Decode(Encode(s)) == Some(s)
  {
    if s != [] {
      var b := Encode(s);
      DecodeOneInverts(s[0], Encode(s[1..]));
      assert b[|EncodeOne(s[0])|..] == Encode(s[1..]);
      DecodeInverts(s[1..]);
      assert s == [s[0]] + s[1..];
    }
  }

  /** The bytes that decode to a character are the ones that encode it. */
  lemma DecodedOneIsEncoded(b: seq<Byte>)
    requires DecodeOne(b).Some?
    ensures var (c, n) := DecodeOne(b).value; b[..n] == EncodeOne(c)
  {
    match DecodeOne(b).value.1
    case 1 =>
    case 2 => TwoAreEncoded(b);
    case 3 => ThreeAreEncoded(b);
    case _ => FourAreEncoded(b);
  }

  lemma TwoAreEncoded(b: seq<Byte>)
    requires DecodeOne(b).Some? && DecodeOne(b).value.1 == 2
    ensures b[..2] == EncodeOne(DecodeOne(b).value.0)
  {
    AppendLow(b[0] - 0xC0, b[1]);
    assert b[..2] == [b[0], b[1]];
  }

  lemma ThreeAreEncoded(b: seq<Byte>)
    requires DecodeOne(b).Some? && DecodeOne(b).value.1 == 3
    ensures b[..3] == EncodeOne(DecodeOne(b).value.0)
  {
    var top12 := b[0] - 0xE0;
    AppendLow(top12, b[1]);
    AppendLow(top12 * 0x40 + Low(b[1]), b[2]);
    assert b[..3] == [b[0], b[1], b[2]];
  }

  lemma FourAreEncoded(b: seq<Byte>)
    requires DecodeOne(b).Some? && DecodeOne(b).value.1 == 4
    ensures b[..4] == EncodeOne(DecodeOne(b).value.0)
  {
    var top6 := b[0] - 0xF0;
    AppendLow(top6, b[1]);
    AppendLow(top6 * 0x40 + Low(b[1]), b[2]);
    AppendLow((top6 * 0x40 + Low(b[1])) * 0x40 + Low(b[2]), b[3]);
    assert b[..4] == [b[0], b[1], b[2], b[3]];
  }

  /** Six more bits. */
  lemma AppendLow(top: int, b: Byte)
    requires Continuation(b)
    ensures (top * 0x40 + Low(b)) / 0x40 == top && 0x80 + (top * 0x40 + Low(b)) % 0x40 == b
  {
  }

  /** Only the encoding of a string decodes to it: there is one byte form of every text. */
  lemma {:induction false} DecodedIsEncoded(b: seq<Byte>, s: string)
    requires Decode(b) == Some(s)
    ensures b == Encode(s)
  {
    if b != [] {
      var c, n, rest := DecodeHead(b, s);
      DecodedIsEncoded(b[n..], rest);
      assert s[0] == c && s[1..] == rest;
      assert b == b[..n] + b[n..];
    }
  }

  lemma DecodeHead(b: seq<Byte>, s: string) returns (c: char, n: nat, rest: string)
    requires b != [] && Decode(b) == Some(s)
    ensures 1 <= n <= |b| && b[..n] == EncodeOne(c)
    ensures Decode(b[n..]) == Some(rest) && s == [c] + rest
  {
    DecodedOneIsEncoded(b);
    c, n := DecodeOne(b).value.0, DecodeOne(b).value.1;
    rest := Decode(b[n..]).value;
  }

  /** ASCII text takes one byte a character. */
  lemma {:induction false} AsciiLength(s: string)
    requires forall c :: c in s ==> c < '\U{80}'
    ensures |Encode(s)| == |s|
  {
    if s != [] {
      assert s[0] in s && forall c :: c in s[1..] ==> c in s;
      AsciiLength(s[1..]);
    }
  }

  // ── Trimming ───────────────────────────────────────────────────────────────

  /** The Unicode property White_Space. */
  predicate IsSpace(c: char) {
    var n := c as int;
    || 0x09 <= n <= 0x0D || n == 0x20 || n == 0x85 || n == 0xA0 || n == 0x1680
    || 0x2000 <= n <= 0x200A || n == 0x2028 || n == 0x2029 || n == 0x202F || n == 0x205F || n == 0x3000
  }

  predicate AllSpace(s: string) {
    forall c :: c in s ==> IsSpace(c)
  }

  function TrimStart(s: string): (r: string)
    ensures |r| <= |s|
  {
    if s != [] && IsSpace(s[0]) then TrimStart(s[1..]) else s
  }

  function TrimEnd(s: string): (r: string)
    ensures |r| <= |s|
  {
    if s != [] && IsSpace(s[|s| - 1]) then TrimEnd(s[..|s| - 1]) else s
  }

  function Trim(s: string): string {
    TrimEnd(TrimStart(s))
  }

  lemma {:induction false} TrimStartSplits(s: string) returns (pre: string)
    ensures AllSpace(pre) && s == pre + TrimStart(s)
  {
    pre := [];
    if s != [] && IsSpace(s[0]) {
      var rest := TrimStartSplits(s[1..]);
      pre := [s[0]] + rest;
    }
  }

  lemma {:induction false} TrimEndSplits(s: string) returns (post: string)
    ensures AllSpace(post) && s == TrimEnd(s) + post
  {
    post := [];
    if s != [] && IsSpace(s[|s| - 1]) {
      var rest := TrimEndSplits(s[..|s| - 1]);
      post := rest + [s[|s| - 1]];
    }
  }

  lemma {:induction false} TrimStartSkips(pre: string, core: string)
    requires AllSpace(pre) && core != [] && !IsSpace(core[0])
    ensures TrimStart(pre + core) == core
  {
    if pre == [] {
      assert pre + core == core;
    } else {
      assert (pre + core)[1..] == pre[1..] + core;
      TrimStartSkips(pre[1..], core);
    }
  }

  lemma {:induction false} TrimEndSkips(core: string, post: string)
    requires AllSpace(post) && core != [] && !IsSpace(core[|core| - 1])
    ensures TrimEnd(core + post) == core
  {
    if post == [] {
      assert core + post == core;
    } else {
      assert (core + post)[..|core + post| - 1] == core + post[..|post| - 1];
      TrimEndSkips(core, post[..|post| - 1]);
    }
  }

  /** Trimming removes exactly the padding around text that starts and ends visibly. */
  lemma TrimSkips(pre: string, core: string, post: string)
    requires AllSpace(pre) && AllSpace(post)
    requires core != [] && !IsSpace(core[0]) && !IsSpace(core[|core| - 1])
    ensures Trim(pre + core + post) == core
  {
    assert pre + core + post == pre + (core + post);
    TrimStartSkips(pre, core + post);
    TrimEndSkips(core, post);
  }

  // ── Splitting ──────────────────────────────────────────────────────────────

  /** `split`: the fields between separators; always at least one. */
  function Split(s: string, sep: char): (fields: seq<string>)
    ensures |fields| >= 1
  {
    if s == [] then [[]]
    else
      var rest := Split(s[1..], sep);
      if s[0] == sep then [[]] + rest else [[s[0]] + rest[0]] + rest[1..]
  }

  function Join(fields: seq<string>, sep: char): string
    requires |fields| >= 1
  {
    if |fields| == 1 then fields[0] else fields[0] + [sep] + Join(fields[1..], sep)
  }

  lemma {:induction false} JoinSplit(s: string, sep: char)
    ensures Join(Split(s, sep), sep) == s
    ensures forall f :: f in Split(s, sep) ==> sep !in f
  {
    if s != [] {
      JoinSplit(s[1..], sep);
      var fields, rest := Split(s, sep), Split(s[1..], sep);
      if s[0] == sep {
        assert fields[1..] == rest;
      } else {
        assert |rest| > 1 ==> fields[1..] == rest[1..];
      }
    }
  }

  lemma {:induction false} SplitJoin(fields: seq<string>, sep: char)
    requires |fields| >= 1 && forall f :: f in fields ==> sep !in f
    ensures Split(Join(fields, sep), sep) == fields
  {
    if |fields| == 1 {
      SplitOnce(fields[0], sep);
      assert fields == [fields[0]];
    } else {
      SplitJoin(fields[1..], sep);
      SplitHead(fields[0], Join(fields[1..], sep), sep);
      assert fields == [fields[0]] + fields[1..];
    }
  }

  lemma {:induction false} SplitOnce(f: string, sep: char)
    requires sep !in f
    ensures Split(f, sep) == [f]
  {
    if f != [] {
      SplitOnce(f[1..], sep);
      assert f == [f[0]] + f[1..];
    }
  }

  lemma {:induction false} SplitHead(f: string, rest: string, sep: char)
    requires sep !in f
    ensures Split(f + [sep] + rest, sep) == [f] + Split(rest, sep)
  {
    var all := f + [sep] + rest;
    if f == [] {
      assert all[1..] == rest;
    } else {
      assert all[1..] == f[1..] + [sep] + rest;
      SplitHead(f[1..], rest, sep);
      assert f == [f[0]] + f[1..];
    }
  }

  // ── Decimal numbers ────────────────────────────────────────────────────────

  predicate IsDigit(c: char) {
    '0' <= c <= '9'
  }

  predicate AllDigits(s: string) {
    forall c :: c in s ==> IsDigit(c)
  }

  function Value(s: string): nat
    requires AllDigits(s)
  {
    if s == [] then 0
    else
      assert s[|s| - 1] in s;
      Value(s[..|s| - 1]) * 10 + (s[|s| - 1] as int - '0' as int)
  }

  /** `str::parse::<u64>`: an optional plus sign, then digits, without overflow. */
  function ParseU64(s: string): Option<nat> {
    var digits := if s != [] && s[0] == '+' then s[1..] else s;
    if digits == [] || !AllDigits(digits) || Value(digits) > U64_MAX then None else Some(Value(digits))
  }

  function DigitChar(d: nat): (c: char)
    requires d < 10
    ensures IsDigit(c) && c as int - '0' as int == d
  {
    ('0' as int + d) as char
  }

  function Show(n: nat): (s: string)
    ensures s != []
  {
    if n < 10 then [DigitChar(n)] else Show(n / 10) + [DigitChar(n % 10)]
  }

  lemma {:induction false} ShowValue(n: nat)
    ensures AllDigits(Show(n)) && Value(Show(n)) == n
  {
    if n < 10 {
      assert Show(n)[..0] == [];
    } else {
      ShowValue(n / 10);
      ValueAppend(Show(n / 10), DigitChar(n % 10));
    }
  }

  lemma ValueAppend(s: string, c: char)
    requires AllDigits(s) && IsDigit(c)
    ensures AllDigits(s + [c]) && Value(s + [c]) == Value(s) * 10 + (c as int - '0' as int)
  {
    assert (s + [c])[..|s|] == s;
  }

  lemma {:induction false} ShowLength(n: nat, digits: nat, limit: nat)
    requires digits > 0 && limit == PowerOfTen(digits) && n < limit
    ensures |Show(n)| <= digits
  {
    if n >= 10 {
      ShowLength(n / 10, digits - 1, limit / 10);
    }
  }

  function PowerOfTen(n: nat): nat {
    if n == 0 then 1 else 10 * PowerOfTen(n - 1)
  }

  lemma ParseShow(n: nat)
    requires n <= U64_MAX
    ensures ParseU64(Show(n)) == Some(n)
  {
    ShowValue(n);
    assert Show(n)[0] in Show(n);
  }
}
