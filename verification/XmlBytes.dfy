/** Bytes, the character classes of XMLUtil, and NUL-terminated strings. */
module XmlBytes {

  type byte = b: int | 0 <= b < 256
  type Bytes = seq<byte>

  const LF: byte := 10
  const CR: byte := 13
  const SPACE: byte := 32
  const BANG: byte := 33      // !
  const QUOTE: byte := 34     // "
  const HASH: byte := 35      // #
  const AMP: byte := 38       // &
  const APOS: byte := 39      // '
  const DASH: byte := 45      // -
  const SLASH: byte := 47     // /
  const SEMI: byte := 59      // ;
  const LT: byte := 60        // <
  const EQ: byte := 61        // =
  const GT: byte := 62        // >
  const QUERY: byte := 63     // ?
  const LOWERX: byte := 120

  /** A string of 7-bit characters as bytes. */
  function Ascii(s: string): (r: Bytes)
    ensures |r| == |s|
  {
    seq(|s|, i requires 0 <= i < |s| => s[i] as int % 256)
  }

  predicate IsSpace(b: byte) {
    9 <= b <= 13 || b == SPACE
  }

  /** Every byte of a multi-byte UTF-8 sequence counts as a name character. */
  predicate IsNameStart(b: byte) {
    b >= 128 || 65 <= b <= 90 || 97 <= b <= 122 || b == 58 || b == 95
  }

  predicate IsNameChar(b: byte) {
    IsNameStart(b) || 48 <= b <= 57 || b == 46 || b == 45
  }

  lemma Regroup(a: Bytes, b: Bytes, c: Bytes, d: Bytes)
    ensures a + (b + c) == a + b + c
    ensures a + b + c + d == a + (b + (c + d)) == a + (b + c + d)
  {
  }

  ghost predicate NoNul(s: Bytes) {
    forall i :: 0 <= i < |s| ==> s[i] != 0
  }

  /** What a reader of a `const char*` sees: the bytes before the first NUL. */
  function CStr(s: Bytes): (r: Bytes)
    ensures r <= s && NoNul(r)
    ensures |r| < |s| ==> s[|r|] == 0
  {
    if s == [] || s[0] == 0 then [] else [s[0]] + CStr(s[1..])
  }

  /** The bytes before the first NUL are determined by where that NUL is. */
  lemma CStrIs(s: Bytes, r: Bytes)
    requires r <= s && NoNul(r)
    requires |r| < |s| ==> s[|r|] == 0
    ensures CStr(s) == r
  {
    var c := CStr(s);
    if |c| < |r| {
      assert false;
    } else if |r| < |c| {
      assert false;
    }
    assert c == s[..|r|];
  }

  /** buf holds s from position p on, followed by the byte `end`. */
  ghost predicate Holds(buf: array<byte>, p: int, s: Bytes, end: byte)
    reads buf
  {
    0 <= p && p + |s| < buf.Length && buf[p + |s|] == end && forall i :: 0 <= i < |s| ==> s[i] == buf[p + i]
  }

  lemma Held(buf: array<byte>, p: nat, s: Bytes, end: byte, i: int)
    requires Holds(buf, p, s, end)
    ensures 0 <= i < |s| ==> buf[p + i] == s[i] && s[i] in s
    ensures i == |s| ==> buf[p + i] == end
  {
  }

  /** buf still holds s[p..] and its terminating NUL, where s was placed at `base`. */
  ghost predicate Tail(buf: array<byte>, base: int, s: Bytes, p: int)
    reads buf
  {
    0 <= base && 0 <= p <= |s| && base + |s| < buf.Length && buf[base + |s|] == 0 &&
    forall i :: p <= i < |s| ==> s[i] == buf[base + i]
  }

  lemma TailAt(buf: array<byte>, base: nat, s: Bytes, p: nat, i: int)
    requires Tail(buf, base, s, p)
    ensures p <= i < |s| ==> buf[base + i] == s[i]
    ensures i == |s| ==> buf[base + i] == 0
    ensures Holds(buf, base + p, s[p..], 0)
  {
  }
}
