/** The stand-in "FHE" codec of the component (`FHEEncryptNumber` and
    `FHEDecryptNumber`): a number is stored as the tag `FHE-` followed by the
    Base64 encoding of its text; a stored string without the tag is read as
    plain number text. */
module Codec {
  import opened Wrappers
  import opened Numbers
  import Base64

  const Tag: string := "FHE-"

  predicate HasTag(s: string) {
    |Tag| <= |s| && s[..|Tag|] == Tag
  }

  lemma AsciiIsBinary(s: string)
    requires IsAscii(s)
    ensures Base64.IsBinary(s)
  {
  }

  /** `FHEEncryptNumber`: the tag, then `btoa` of the number's text. The text
      of a number is ASCII, so `btoa` does not throw here. */
  function Encrypt(fmt: NumberText, x: real): (r: string)
    ensures HasTag(r)
    ensures Base64.IsPaddedBase64(r[|Tag|..])
  {
    var text := fmt.show(x);
    AsciiIsBinary(text);
    var r := Tag + Base64.Encode(text);
    assert r[|Tag|..] == Base64.Encode(text);
    r
  }

  /** `FHEDecryptNumber`. `None` is the exception `atob` throws on a tagged
      payload that is not valid Base64; otherwise the result is what
      `parseFloat` makes of the (decoded) text, which may be `NaN`. */
  function Decrypt(fmt: NumberText, s: string): (r: Option<JsNumber>)
    ensures r.None? ==> HasTag(s) && Base64.Atob(s[|Tag|..]).None?
  {
    if HasTag(s) then
      match Base64.Atob(s[|Tag|..])
      case None => None
      case Some(text) => Some(fmt.parse(text))
    else Some(fmt.parse(s))
  }

  /** Decoding an encoding strips the tag and Base64-decodes back to exactly
      the number's text, which is then parsed; when the runtime's `parseFloat`
      reads `toString` back exactly, the number itself comes back. */
  lemma DecryptInvertsEncrypt(fmt: NumberText, x: real)
    ensures Decrypt(fmt, Encrypt(fmt, x)) == Some(fmt.parse(fmt.show(x)))
    ensures fmt.parse(fmt.show(x)) == Num(x) ==> Decrypt(fmt, Encrypt(fmt, x)) == Some(Num(x))
  {
    var text := fmt.show(x);
    AsciiIsBinary(text);
    var r := Encrypt(fmt, x);
    assert r[|Tag|..] == Base64.Encode(text);
    Base64.AtobInvertsBtoa(text);
  }

  /** A string without the tag gets no Base64 treatment: it is parsed as it is,
      and the decoder cannot throw on it. */
  lemma DecryptUntagged(fmt: NumberText, s: string)
    requires !HasTag(s)
    ensures Decrypt(fmt, s) == Some(fmt.parse(s))
  {
  }

  /** A tagged string decodes exactly when its payload is valid for `atob`,
      and then to the parse of the decoded text. */
  lemma DecryptTagged(fmt: NumberText, s: string)
    requires HasTag(s)
    ensures Decrypt(fmt, s).Some? <==> Base64.Atob(s[|Tag|..]).Some?
    ensures Decrypt(fmt, s).Some? ==> Decrypt(fmt, s) == Some(fmt.parse(Base64.Atob(s[|Tag|..]).value))
  {
  }

  /** Distinct number texts give distinct stored strings. */
  lemma EncryptInjective(fmt: NumberText, x: real, y: real)
    requires fmt.show(x) != fmt.show(y)
    ensures Encrypt(fmt, x) != Encrypt(fmt, y)
  {
    var tx, ty := fmt.show(x), fmt.show(y);
    AsciiIsBinary(tx);
    AsciiIsBinary(ty);
    Base64.AtobInvertsBtoa(tx);
    Base64.AtobInvertsBtoa(ty);
    assert Encrypt(fmt, x)[|Tag|..] == Base64.Encode(tx);
    assert Encrypt(fmt, y)[|Tag|..] == Base64.Encode(ty);
  }
}
