/** The two C library string routines the firmware relies on: `strnlen`, as
    the view of a fixed-size buffer as a C string, and `strncpy`, which
    main.c uses both to publish a message into str_data and to snapshot
    str_data into the I2C output buffer. */
module CString {
  import opened Common

  /** The number of bytes before the first NUL among the first `n` bytes of
      `s`, or `n` when there is none (C's strnlen). */
  function StrNLen(s: seq<Byte>, n: nat): (k: nat)
    requires n <= |s|
    ensures k <= n
    ensures forall i :: 0 <= i < k ==> s[i] != 0
    ensures k < n ==> s[k] == 0
  {
    if n == 0 || s[0] == 0 then 0 else 1 + StrNLen(s[1..], n - 1)
  }

  /** The C string a buffer holds when it is read with `%s` or copied with
      strncpy: its bytes up to, not including, the first NUL. */
  function CStr(s: seq<Byte>): seq<Byte>
  {
    s[..StrNLen(s, |s|)]
  }

  /** A buffer in the form strncpy leaves its destination: every byte from
      the first NUL on is NUL. */
  ghost predicate Padded(s: seq<Byte>)
  {
    forall j :: StrNLen(s, |s|) <= j < |s| ==> s[j] == 0
  }

  /** The `n` bytes strncpy(dst, src, n) stores into dst. */
  function StrNCpy(src: seq<Byte>, n: nat): (r: seq<Byte>)
    requires n <= |src|
    ensures |r| == n
  {
    if n == 0 then []
    else if src[0] == 0 then Zeros(n)
    else [src[0]] + StrNCpy(src[1..], n - 1)
  }

  /** Byte by byte, strncpy copies `src` up to its first NUL and stores NUL
      from there on. */
  lemma {:induction false} StrNCpyAt(src: seq<Byte>, n: nat)
    requires n <= |src|
    ensures forall i :: 0 <= i < n ==>
      StrNCpy(src, n)[i] == (if i < StrNLen(src, n) then src[i] else 0)
  {
    if n > 0 && src[0] != 0 {
      StrNCpyAt(src[1..], n - 1);
      forall i | 0 < i < n
        ensures StrNCpy(src, n)[i] == (if i < StrNLen(src, n) then src[i] else 0)
      {
        assert StrNCpy(src, n)[i] == StrNCpy(src[1..], n - 1)[i - 1];
      }
    }
  }

  /** strncpy copies the bytes of `src` up to the first NUL and fills the
      rest of the `n` bytes with NUL; with no NUL among the first `n` bytes
      it copies all of them and writes no terminator (Zeros(0) is
      empty). */
  lemma StrNCpyShape(src: seq<Byte>, n: nat)
    requires n <= |src|
    ensures StrNCpy(src, n) == src[..StrNLen(src, n)] + Zeros(n - StrNLen(src, n))
  {
    var k := StrNLen(src, n);
    StrNCpyAt(src, n);
    forall i | 0 <= i < n
      ensures StrNCpy(src, n)[i] == (src[..k] + Zeros(n - k))[i]
    {
    }
  }

  /** Whatever the source, strncpy's result is padded. */
  lemma StrNCpyPadded(src: seq<Byte>, n: nat)
    requires n <= |src|
    ensures Padded(StrNCpy(src, n))
  {
    var r, k := StrNCpy(src, n), StrNLen(src, n);
    StrNCpyShape(src, n);
    if k < n {
      assert r[k] == 0 && forall i :: 0 <= i < k ==> r[i] == src[i];
      StrNLenFirstNul(r, n, k);
    }
  }

  /** A buffer is padded exactly when strncpy copies it onto itself. */
  lemma PaddedCopiesToItself(s: seq<Byte>)
    ensures Padded(s) <==> StrNCpy(s, |s|) == s
  {
    StrNCpyPadded(s, |s|);
    StrNCpyShape(s, |s|);
    if Padded(s) {
      var k := StrNLen(s, |s|);
      assert s == s[..k] + Zeros(|s| - k);
    }
  }

  /** Copying twice gives the same bytes as copying once. */
  lemma StrNCpyIdempotent(src: seq<Byte>, n: nat)
    requires n <= |src|
    ensures StrNCpy(StrNCpy(src, n), n) == StrNCpy(src, n)
  {
    StrNCpyPadded(src, n);
    PaddedCopiesToItself(StrNCpy(src, n));
  }

  /** strncpy preserves the C string held by its source when the whole
      string fits in `n` bytes. */
  lemma StrNCpyKeepsCStr(src: seq<Byte>, n: nat)
    requires n <= |src| && StrNLen(src, n) < n
    ensures CStr(StrNCpy(src, n)) == CStr(src)
  {
    var k := StrNLen(src, n);
    var r := StrNCpy(src, n);
    StrNCpyAt(src, n);
    StrNLenFirstNul(src, |src|, k);
    StrNLenFirstNul(r, |r|, k);
    assert r[..k] == src[..k];
  }

  /** StrNLen is the position of the first NUL, whatever the bound beyond
      it. */
  lemma StrNLenFirstNul(s: seq<Byte>, n: nat, k: nat)
    requires k < n <= |s|
    requires s[k] == 0 && forall i :: 0 <= i < k ==> s[i] != 0
    ensures StrNLen(s, n) == k
  {
  }

  /** strncpy(dst, src, n) as the C library performs it, in place: copy up
      to the first NUL, then fill the rest of the `n` bytes with NUL. */
  method StrNCpyInto(dst: array<Byte>, src: array<Byte>, n: nat)
    requires n <= dst.Length && n <= src.Length && dst != src
    modifies dst
    ensures dst[..n] == StrNCpy(src[..], n)
    ensures dst[n..] == old(dst[n..])
  {
    var i := 0;
    while i < n && src[i] != 0
      invariant i <= n
      invariant dst[..i] == src[..i]
      invariant forall j :: 0 <= j < i ==> src[j] != 0
      invariant dst[n..] == old(dst[n..])
    {
      dst[i] := src[i];
      i := i + 1;
    }
    ghost var k := i;
    assert k == StrNLen(src[..], n) by {
      if k < n {
        StrNLenFirstNul(src[..], n, k);
      }
    }
    while i < n
      invariant k <= i <= n
      invariant dst[..k] == src[..k]
      invariant forall j :: k <= j < i ==> dst[j] == 0
      invariant dst[n..] == old(dst[n..])
    {
      dst[i] := 0;
      i := i + 1;
    }
    StrNCpyAt(src[..], n);
    assert forall j :: 0 <= j < n ==> dst[j] == StrNCpy(src[..], n)[j];
  }
}
