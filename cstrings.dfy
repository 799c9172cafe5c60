/** The C string operations the codec relies on, stated over byte sequences. */
module CStrings {
  import opened Types

  const NUL: byte := 0x00
  const DOT: byte := 0x2E  // '.'

  /** A byte sequence that can be held by a C string: no NUL inside. */
  predicate NoNul(s: seq<byte>)
  {
    forall i :: 0 <= i < |s| ==> s[i] != NUL
  }

  /** The C string held by a buffer: its bytes up to the first NUL, as `strlen` and `strcmp` see it. */
  function CString(buf: seq<byte>): (r: seq<byte>)
    ensures NoNul(r) && |r| <= |buf|
  {
    if buf == [] || buf[0] == NUL then [] else [buf[0]] + CString(buf[1..])
  }

  /** CString stops exactly at the first NUL: it is a prefix of the buffer, followed there by a NUL or the end. */
  lemma {:induction false} CStringPrefix(buf: seq<byte>)
    ensures CString(buf) <= buf
    ensures |CString(buf)| < |buf| ==> buf[|CString(buf)|] == NUL
    ensures NoNul(buf) ==> CString(buf) == buf
  {
    if buf != [] && buf[0] != NUL {
      CStringPrefix(buf[1..]);
    }
  }

  /** `strrchr(s, '.')`: the index of the last '.' in `s`, if there is one. */
  function LastDot(s: seq<byte>): (r: Option<nat>)
    ensures r.None? ==> forall i :: 0 <= i < |s| ==> s[i] != DOT
    ensures r.Some? ==> r.value < |s| && s[r.value] == DOT
    ensures r.Some? ==> forall i :: r.value < i < |s| ==> s[i] != DOT
  {
    if s == [] then None
    else if s[|s| - 1] == DOT then Some(|s| - 1)
    else LastDot(s[..|s| - 1])
  }

  /** The C string that `strrchr(s, '.')` points at: from the last '.' to the end. */
  function DotSuffix(s: seq<byte>): (r: Option<seq<byte>>)
    ensures r.Some? ==> 0 < |r.value| <= |s| && r.value[0] == DOT && r.value == s[|s| - |r.value|..]
    ensures r.Some? ==> forall i :: 0 < i < |r.value| ==> r.value[i] != DOT
    ensures r.None? <==> forall i :: 0 <= i < |s| ==> s[i] != DOT
  {
    match LastDot(s)
    case None => None
    case Some(k) => Some(s[k..])
  }

  /** What `strncpy(dst, src, n)` followed by `dst[n] = '\0'` leaves as a C string, for `src` without NUL. */
  function Truncate(s: seq<byte>, n: nat): (r: seq<byte>)
    ensures r <= s && |r| <= n
    ensures |s| <= n ==> r == s
  {
    if |s| <= n then s else s[..n]
  }

  /** A NUL written after `x` ends the C string there, whatever follows. */
  lemma {:induction false} CStringTerminated(x: seq<byte>, rest: seq<byte>)
    ensures CString(x + [NUL] + rest) == CString(x)
  {
    if x != [] && x[0] != NUL {
      CStringTerminated(x[1..], rest);
      assert (x + [NUL] + rest)[1..] == x[1..] + [NUL] + rest;
    }
  }

  /**
   * `strcmp(buf, s) == 0` for a buffer holding `x` and then a NUL, against a C string `s` of the same
   * length: it holds exactly when `x` is `s`.
   */
  lemma StrcmpTerminated(x: seq<byte>, rest: seq<byte>, s: seq<byte>)
    requires NoNul(s) && |x| == |s|
    ensures CString(x + [NUL] + rest) == s <==> x == s
  {
    CStringTerminated(x, rest);
    CStringPrefix(x);
  }

  /** A buffer with a NUL at index n holds the C string of its first n bytes. */
  lemma CStringAt(buf: seq<byte>, n: nat)
    requires n < |buf| && buf[n] == NUL
    ensures CString(buf) == CString(buf[..n])
  {
    CStringTerminated(buf[..n], buf[n + 1..]);
    assert buf == buf[..n] + [NUL] + buf[n + 1..];
  }
}
