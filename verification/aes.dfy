/**
  The AES-256 key of `cipher` in src/render/html/aes.rs: 32 zero bytes,
  overwritten from the front with the password's bytes. A longer password
  is cut at 32 bytes; a shorter one is padded with zeros.

  The password is given as its bytes (the program takes the UTF-8 encoding
  of its string). The cipher itself is a library call and is not part of
  this model.
*/
module Aes {
  newtype byte = x: int | 0 <= x < 256

  const KEY_SIZE: nat := 32

  /** The key, position by position. */
  function KeyOf(password: seq<byte>): (key: seq<byte>)
    ensures |key| == KEY_SIZE
    ensures forall i :: 0 <= i < KEY_SIZE && i < |password| ==> key[i] == password[i]
    ensures forall i :: |password| <= i < KEY_SIZE ==> key[i] == 0
  {
    seq(KEY_SIZE, i requires 0 <= i < KEY_SIZE => if i < |password| then password[i] else 0)
  }

  /** The loop of `cipher`: zip the zeroed key with the password bytes and
      copy each pair. */
  method DeriveKey(password: seq<byte>) returns (key: seq<byte>)
    ensures key == KeyOf(password)
  {
    key := seq(KEY_SIZE, _ => 0);
    var i := 0;
    while i < |key| && i < |password|
      invariant 0 <= i <= KEY_SIZE && i <= |password| && |key| == KEY_SIZE
      invariant forall j :: 0 <= j < i ==> key[j] == password[j]
      invariant forall j :: i <= j < KEY_SIZE ==> key[j] == 0
    {
      key := key[i := password[i]];
      i := i + 1;
    }
    assert forall j :: 0 <= j < KEY_SIZE ==> key[j] == KeyOf(password)[j];
  }

  /** Only the first 32 bytes count: passwords that agree on them (or on all
      of the shorter one, when both are shorter) share a key. */
  lemma SamePrefixSameKey(a: seq<byte>, b: seq<byte>)
    requires |a| >= KEY_SIZE && |b| >= KEY_SIZE && a[..KEY_SIZE] == b[..KEY_SIZE]
    ensures KeyOf(a) == KeyOf(b)
  {
    forall i | 0 <= i < KEY_SIZE
      ensures KeyOf(a)[i] == KeyOf(b)[i]
    {
      assert a[i] == a[..KEY_SIZE][i];
      assert b[i] == b[..KEY_SIZE][i];
    }
  }

  /** Zero padding cannot tell a short password from the same password with
      zero bytes after it. */
  lemma TrailingZerosSameKey(p: seq<byte>, zeros: nat)
    requires |p| + zeros <= KEY_SIZE
    ensures KeyOf(p + seq(zeros, _ => 0)) == KeyOf(p)
  {
    var q := p + seq(zeros, _ => 0);
    forall i | 0 <= i < KEY_SIZE
      ensures KeyOf(q)[i] == KeyOf(p)[i]
    {
      if i < |p| {
        assert q[i] == p[i];
      } else if i < |q| {
        assert q[i] == seq(zeros, _ => 0)[i - |p|];
      }
    }
  }

  /** Two passwords of at most 32 bytes without zero bytes share a key only
      when they are equal. */
  lemma ShortKeysDistinct(a: seq<byte>, b: seq<byte>)
    requires |a| <= KEY_SIZE && |b| <= KEY_SIZE
    requires forall i :: 0 <= i < |a| ==> a[i] != 0
    requires forall i :: 0 <= i < |b| ==> b[i] != 0
    requires KeyOf(a) == KeyOf(b)
    ensures a == b
  {
    if |a| > 0 {
      assert |a| - 1 < |b| by { assert KeyOf(a)[|a| - 1] == a[|a| - 1]; }
    }
    if |b| > 0 {
      assert |b| - 1 < |a| by { assert KeyOf(b)[|b| - 1] == b[|b| - 1]; }
    }
    forall i | 0 <= i < |a|
      ensures a[i] == b[i]
    {
      assert KeyOf(a)[i] == a[i];
    }
  }
}
