/** Bytes and NUL-terminated C strings, as the bridge handles them. */
module Bytes {

  /** An unsigned 8-bit value: a DMX channel level, a descriptor byte, a C `char`. */
  newtype byte = x: int | 0 <= x < 256

  /** No byte of `b` is NUL. */
  predicate NoNulBytes(b: seq<byte>) {
    forall i | 0 <= i < |b| :: b[i] != 0
  }

  /** The C string stored in `buf`: its bytes up to, not including, the first NUL. */
  function CString(buf: seq<byte>): (s: seq<byte>)
    ensures |s| <= |buf| && s == buf[..|s|]
    ensures NoNulBytes(s)
    ensures |s| < |buf| ==> buf[|s|] == 0
  {
    if buf == [] then []
    else if buf[0] == 0 then []
    else [buf[0]] + CString(buf[1..])
  }

  /** Whatever follows the first NUL does not belong to the C string. */
  lemma {:induction false} CStringOfTerminated(a: seq<byte>, rest: seq<byte>)
    ensures CString(a + [0] + rest) == CString(a)
  {
    if a == [] {
    } else {
      assert (a + [0] + rest)[1..] == a[1..] + [0] + rest;
      if a[0] != 0 {
        CStringOfTerminated(a[1..], rest);
      }
    }
  }

  /** A byte string with no NUL in it is its own C string. */
  lemma {:induction false} CStringOfNulFree(a: seq<byte>)
    requires NoNulBytes(a)
    ensures CString(a) == a
  {
    if a != [] {
      CStringOfNulFree(a[1..]);
    }
  }
}
