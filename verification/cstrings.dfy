/**
 Caller buffers and the bounded string copy of `q_remove_head`. A buffer is
 the caller's `bufsize` (or more) characters of memory; what a C reader sees
 in it is the text up to the first NUL.
 */
module CStrings {
  import opened Memory

  /** One more than the largest `size_t` on a 64-bit target. */
  const SizeLimit: int := 0x1_0000_0000_0000_0000

  /** `size_t`. */
  type SizeT = n: nat | n < SizeLimit

  /** `bufsize - 1` in `size_t` arithmetic: 0 wraps round to the largest value. */
  function SizeMinusOne(n: SizeT): (r: SizeT)
    ensures n > 0 ==> r + 1 == n
    ensures n == 0 ==> r == SizeLimit - 1
  {
    if n == 0 then SizeLimit - 1 else n - 1
  }

  function Min(a: int, b: int): int {
    if a <= b then a else b
  }

  /**
   The string a C reader finds at the start of `b`: the characters before
   the first NUL, or `None` when `b` holds no NUL and the reader would run
   off its end.
   */
  function ReadCString(b: seq<char>): (r: Option<Text>)
    ensures r.Some? ==> |r.value| < |b| && b[..|r.value|] == r.value && b[|r.value|] == '\0'
    ensures r.None? <==> '\0' !in b
  {
    if |b| == 0 then None
    else if b[0] == '\0' then Some("")
    else
      match ReadCString(b[1..])
      case None => None
      case Some(t) => var t': Text := [b[0]] + t; Some(t')
  }

  /** A buffer that holds `t` and then a NUL reads back as exactly `t`. */
  lemma {:induction false} ReadTerminated(b: seq<char>, t: Text)
    requires |t| < |b| && b[..|t|] == t && b[|t|] == '\0'
    ensures ReadCString(b) == Some(t)
    decreases |t|
  {
    if |t| > 0 {
      assert b[0] == t[0];
      assert '\0' !in t[1..];
      ReadTerminated(b[1..], t[1..]);
    }
  }

  /**
   `strncpy(dst, src, n)`: writes exactly `n` characters, the first ones
   from `src` and NUL padding after `src` ends; when `src` has `n` or more
   characters no NUL is written at all.
   */
  function StrNCpy(dst: seq<char>, src: Text, n: nat): (r: seq<char>)
    requires n <= |dst|
    ensures |r| == |dst|
    ensures r[n..] == dst[n..]
    ensures r[..Min(|src|, n)] == src[..Min(|src|, n)]
    ensures |src| < n ==> r[|src|] == '\0'
    ensures forall i :: |src| <= i < n ==> r[i] == '\0'
  {
    seq(|dst|, i requires 0 <= i < |dst| =>
      if i >= n then dst[i] else if i < |src| then src[i] else '\0')
  }

  /**
   The bounded copy the documentation of `q_remove_head` asks for: at most
   `bufsize - 1` characters of `src` and then a terminating NUL, nothing at
   or beyond `bufsize`, and nothing at all when `bufsize` is 0.
   */
  function CopyOut(dst: seq<char>, src: Text, bufsize: nat): (r: seq<char>)
    requires bufsize <= |dst|
    ensures |r| == |dst|
    ensures r[bufsize..] == dst[bufsize..]
    ensures bufsize == 0 ==> r == dst
    ensures bufsize > 0 ==> ReadCString(r) == Some(src[..Min(|src|, bufsize - 1)])
  {
    if bufsize == 0 then dst
    else
      var r := StrNCpy(dst, src, bufsize - 1)[bufsize - 1 := '\0'];
      var k := Min(|src|, bufsize - 1);
      assert r[..k] == src[..k];
      ReadTerminated(r, src[..k]);
      r
  }
}
