/**
  `encrypt_text` (src/render/html.rs): the text is encrypted once per
  (tag, password) pair; every pair whose encryption succeeds contributes its
  tag and nonce, and the ciphertext kept is that of the last success. The
  result is a span of class "secret" carrying the tags and nonces as
  ";"-separated attributes.

  The cipher (AES-GCM with a random nonce) is a parameter: a function from
  plaintext and password to a (nonce, ciphertext) pair, or None on failure.
*/
module Secrets {
  import opened Strings
  import opened Model
  import opened Css

  type Cipher = (string, string) -> Option<(string, string)>

  const CSS_CLASS_SECRET: string := "secret"
  const SECRET_SEP: string := ";"
  const TAGS_ATTR: string := "tags"
  const NONCES_ATTR: string := "nonces"

  /** What the loop has gathered. */
  datatype Sealed = Sealed(tags: seq<Tag>, nonces: seq<string>, ciphertext: string)

  /** The pairs whose encryption succeeds, in order. */
  function Succeeding(cipher: Cipher, pairs: seq<(Tag, string)>, plaintext: string): (r: seq<(Tag, string)>)
    ensures |r| <= |pairs|
    ensures forall p :: p in r ==> p in pairs && cipher(plaintext, p.1).Some?
  {
    if pairs == [] then []
    else
      var front := Succeeding(cipher, pairs[..|pairs| - 1], plaintext);
      var last := pairs[|pairs| - 1];
      if cipher(plaintext, last.1).Some? then front + [last] else front
  }

  /** The loop of `encrypt_text` over the pairs, front to back. */
  function SealAll(cipher: Cipher, pairs: seq<(Tag, string)>, plaintext: string): (r: Sealed)
    ensures |r.tags| == |r.nonces|
    ensures |r.tags| == |Succeeding(cipher, pairs, plaintext)|
    ensures forall i :: 0 <= i < |r.tags| ==> r.tags[i] == Succeeding(cipher, pairs, plaintext)[i].0
  {
    if pairs == [] then Sealed([], [], [])
    else
      var r := SealAll(cipher, pairs[..|pairs| - 1], plaintext);
      var last := pairs[|pairs| - 1];
      match cipher(plaintext, last.1)
      case Some(sealed) => Sealed(r.tags + [last.0], r.nonces + [sealed.0], sealed.1)
      case None => r
  }

  /** The ciphertext kept is the last successful one, each nonce is the one
      its encryption produced, and with no success the text is empty. */
  lemma {:induction false} SealAllLast(cipher: Cipher, pairs: seq<(Tag, string)>, plaintext: string)
    ensures var r := SealAll(cipher, pairs, plaintext);
      var ok := Succeeding(cipher, pairs, plaintext);
      && (ok == [] ==> r == Sealed([], [], []))
      && (ok != [] ==> r.ciphertext == cipher(plaintext, ok[|ok| - 1].1).value.1)
      && (forall i :: 0 <= i < |ok| ==> r.nonces[i] == cipher(plaintext, ok[i].1).value.0)
  {
    if pairs != [] {
      var front := pairs[..|pairs| - 1];
      var last := pairs[|pairs| - 1];
      SealAllLast(cipher, front, plaintext);
      var r0 := SealAll(cipher, front, plaintext);
      var ok0 := Succeeding(cipher, front, plaintext);
      match cipher(plaintext, last.1)
      case Some(sealed) =>
        var ok := ok0 + [last];
        assert Succeeding(cipher, pairs, plaintext) == ok;
        assert SealAll(cipher, pairs, plaintext) == Sealed(r0.tags + [last.0], r0.nonces + [sealed.0], sealed.1);
        assert forall i :: 0 <= i < |ok0| ==> ok[i] == ok0[i];
      case None =>
        assert Succeeding(cipher, pairs, plaintext) == ok0;
        assert SealAll(cipher, pairs, plaintext) == r0;
    }
  }

  /** `encrypt_text`: the span of class "secret" holding the ciphertext, with
      the tags and nonces of the successful encryptions. */
  function EncryptText(cipher: Cipher, pairs: seq<(Tag, string)>, plaintext: string): (r: Node)
    ensures var s := SealAll(cipher, pairs, plaintext);
      && r.el == Inline("span", [TextNode(s.ciphertext)])
      && GetAttr(r.attrs, CSS_CLASS_ATTR) == Some(CSS_CLASS_SECRET)
      && GetAttr(r.attrs, TAGS_ATTR) == Some(Join(s.tags, SECRET_SEP))
      && GetAttr(r.attrs, NONCES_ATTR) == Some(Join(s.nonces, SECRET_SEP))
    ensures r.tags == []
  {
    var s := SealAll(cipher, pairs, plaintext);
    WithClass(SpanNode([TextNode(s.ciphertext)]), CSS_CLASS_SECRET)
      .WithAttr(TAGS_ATTR, Join(s.tags, SECRET_SEP))
      .WithAttr(NONCES_ATTR, Join(s.nonces, SECRET_SEP))
  }

  /** When every encryption succeeds the span names every tag, in order. */
  lemma {:induction false} AllSucceed(cipher: Cipher, pairs: seq<(Tag, string)>, plaintext: string)
    requires forall i :: 0 <= i < |pairs| ==> cipher(plaintext, pairs[i].1).Some?
    ensures Succeeding(cipher, pairs, plaintext) == pairs
  {
    if pairs != [] {
      AllSucceed(cipher, pairs[..|pairs| - 1], plaintext);
      assert pairs[..|pairs| - 1] + [pairs[|pairs| - 1]] == pairs;
    }
  }
}
