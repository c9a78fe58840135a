/**
 * One `Primitives` value, insecure by design, that satisfies every hypothesis at once:
 * `CipherSound`, `TextSound`, `JsonSound` and `TokenSound`. It shows that no lemma resting on
 * them is vacuously true.
 *
 * Text is three bytes per character (the scalar value in base 256). A token is the text
 * encoding of key, nonce and plaintext, one character per byte. A config is `{`, the key's
 * encoding, the separator byte 0xFF (which never starts a character) and the value's encoding.
 */
module Instance {
  import opened Common
  import opened Cipher

  /** `{`, with which `json.dumps` starts an object. */
  const ObjectOpen: byte := 0x7B
  const Separator: byte := 0xFF

  function EncodeChar(c: char): seq<byte> {
    var x := c as int;
    [x / 65536, (x / 256) % 256, x % 256]
  }

  function DecodeChar(t: seq<byte>): Option<char>
    requires |t| == 3
  {
    var v: int := t[0] as int * 65536 + t[1] as int * 256 + t[2] as int;
    if v < 0xD800 || 0xE000 <= v < 0x11_0000 then Some(v as char) else None
  }

  function Encode(s: string): seq<byte> {
    if s == [] then [] else EncodeChar(s[0]) + Encode(s[1..])
  }

  function Decode(b: seq<byte>): Option<string>
    decreases |b|
  {
    if |b| == 0 then Some([])
    else if |b| < 3 then None
    else
      match DecodeChar(b[..3])
      case None => None
      case Some(c) =>
        match Decode(b[3..])
        case None => None
        case Some(s) => Some([c] + s)
  }

  /** One character per byte. */
  function AsText(x: seq<byte>): string {
    if x == [] then [] else [x[0] as char] + AsText(x[1..])
  }

  /** The inverse of `AsText`: None when a character is not below 256. */
  function AsBytes(t: string): Option<seq<byte>> {
    if t == [] then Some([])
    else if t[0] as int >= 256 then None
    else
      match AsBytes(t[1..])
      case None => None
      case Some(r) => Some([t[0] as int] + r)
  }

  function Seal(k: Key, n: Nonce, m: seq<byte>): seq<byte> {
    Encode(AsText(k + n + m))
  }

  function Open(k: Key, c: seq<byte>): Option<seq<byte>> {
    match Decode(c)
    case None => None
    case Some(t) =>
      match AsBytes(t)
      case None => None
      case Some(x) =>
        if |x| >= KeyLength + NonceLength && x[..KeyLength] == k then Some(x[KeyLength + NonceLength..])
        else None
  }

  function DumpPair(key: string, value: string): seq<byte> {
    [ObjectOpen] + Encode(key) + [Separator] + Encode(value)
  }

  /** The key's characters up to the separator, then the value. */
  function SplitPair(b: seq<byte>): Option<(string, string)>
    decreases |b|
  {
    if |b| == 0 then None
    else if b[0] == Separator then
      match Decode(b[1..])
      case None => None
      case Some(v) => Some(([], v))
    else if |b| < 3 then None
    else
      match DecodeChar(b[..3])
      case None => None
      case Some(c) =>
        match SplitPair(b[3..])
        case None => None
        case Some(p) => Some(([c] + p.0, p.1))
  }

  function LoadJson(b: seq<byte>): Option<Json> {
    if |b| >= 1 && b[0] == ObjectOpen then
      match SplitPair(b[1..])
      case None => None
      case Some(p) => Some(JObject(map[p.0 := JString(p.1)]))
    else None
  }

  /** The first 32 bytes of the password, padded with zeros: distinct for passwords that differ
      there. */
  function Derive(password: seq<byte>, salt: seq<byte>): Key {
    seq(KeyLength, i requires 0 <= i < KeyLength => if i < |password| then password[i] else 0)
  }

  const Prims := Primitives(
    Derive,
    Seal, Open, Encode, Decode, DumpPair, LoadJson)

  lemma DecodeEncodeChar(c: char)
    ensures EncodeChar(c)[0] < 17
    ensures DecodeChar(EncodeChar(c)) == Some(c)
  {
    var x := c as int;
    assert x == (x / 65536) * 65536 + ((x / 256) % 256) * 256 + x % 256;
  }

  lemma EncodeDecodeChar(t: seq<byte>)
    requires |t| == 3 && DecodeChar(t).Some?
    ensures EncodeChar(DecodeChar(t).value) == t
  {
    var v: int := t[0] as int * 65536 + t[1] as int * 256 + t[2] as int;
    assert v / 65536 == t[0];
    assert v % 65536 == t[1] as int * 256 + t[2] as int;
    assert (v / 256) % 256 == t[1];
    assert v % 256 == t[2];
  }

  lemma SplitThree(e: seq<byte>, t: seq<byte>)
    requires |e| == 3
    ensures (e + t)[0] == e[0] && (e + t)[..3] == e && (e + t)[3..] == t
  {
  }

  lemma {:induction false} DecodeEncode(s: string)
    ensures Decode(Encode(s)) == Some(s)
    decreases |s|
  {
    if s != [] {
      DecodeEncodeChar(s[0]);
      DecodeEncode(s[1..]);
      SplitThree(EncodeChar(s[0]), Encode(s[1..]));
      assert [s[0]] + s[1..] == s;
    }
  }

  /** A key's encoding followed by the separator splits off exactly that key. */
  lemma {:induction false} SplitEncoded(s: string, rest: seq<byte>)
    requires Decode(rest).Some?
    ensures SplitPair(Encode(s) + [Separator] + rest) == Some((s, Decode(rest).value))
    decreases |s|
  {
    if s == [] {
      assert Encode(s) + [Separator] + rest == [Separator] + rest;
      assert ([Separator] + rest)[1..] == rest;
    } else {
      var e, tail := EncodeChar(s[0]), Encode(s[1..]) + [Separator] + rest;
      assert Encode(s) + [Separator] + rest == e + tail;
      DecodeEncodeChar(s[0]);
      SplitEncoded(s[1..], rest);
      SplitThree(e, tail);
      assert [s[0]] + s[1..] == s;
    }
  }

  lemma {:induction false} EncodeDecode(b: seq<byte>)
    requires Decode(b).Some?
    ensures Encode(Decode(b).value) == b
    decreases |b|
  {
    if |b| > 0 {
      var c := DecodeChar(b[..3]).value;
      EncodeDecodeChar(b[..3]);
      EncodeDecode(b[3..]);
      var s := Decode(b).value;
      assert s[0] == c && s[1..] == Decode(b[3..]).value;
      assert b == b[..3] + b[3..];
    }
  }

  lemma {:induction false} EncodeLength(s: string)
    ensures |Encode(s)| == 3 * |s|
  {
    if s != [] {
      EncodeLength(s[1..]);
    }
  }

  lemma {:induction false} AsBytesAsText(x: seq<byte>)
    ensures |AsText(x)| == |x|
    ensures AsBytes(AsText(x)) == Some(x)
  {
    if x != [] {
      AsBytesAsText(x[1..]);
      assert AsText(x)[1..] == AsText(x[1..]);
      assert [x[0]] + x[1..] == x;
    }
  }

  lemma {:induction false} AsTextInjective(x: seq<byte>, y: seq<byte>)
    requires AsText(x) == AsText(y)
    ensures x == y
  {
    AsBytesAsText(x);
    AsBytesAsText(y);
  }

  lemma SealOpens(k: Key, n: Nonce, m: seq<byte>)
    ensures Open(k, Seal(k, n, m)) == Some(m)
  {
    var x := k + n + m;
    DecodeEncode(AsText(x));
    AsBytesAsText(x);
    assert x[..KeyLength] == k && x[KeyLength + NonceLength..] == m;
  }

  lemma SealRejectsOtherKey(k: Key, k': Key, n: Nonce, m: seq<byte>)
    requires k' != k
    ensures Open(k', Seal(k, n, m)) == None
  {
    var x := k + n + m;
    DecodeEncode(AsText(x));
    AsBytesAsText(x);
    assert x[..KeyLength] == k;
  }

  lemma SealSeparatesNonces(k: Key, n: Nonce, n': Nonce, m: seq<byte>)
    requires n != n'
    ensures Seal(k, n, m) != Seal(k, n', m)
  {
    var x, x' := k + n + m, k + n' + m;
    assert x[KeyLength..KeyLength + NonceLength] == n && x'[KeyLength..KeyLength + NonceLength] == n';
    DecodeEncode(AsText(x));
    DecodeEncode(AsText(x'));
    if AsText(x) == AsText(x') {
      AsTextInjective(x, x');
    }
  }

  lemma InstanceCipherSound()
    ensures CipherSound(Prims)
  {
    forall k: Key, n: Nonce, m: seq<byte>
      ensures Open(k, Seal(k, n, m)) == Some(m)
    {
      SealOpens(k, n, m);
    }
    forall k: Key, k': Key, n: Nonce, m: seq<byte> | k' != k
      ensures Open(k', Seal(k, n, m)) == None
    {
      SealRejectsOtherKey(k, k', n, m);
    }
    forall k: Key, n: Nonce, n': Nonce, m: seq<byte> | n != n'
      ensures Seal(k, n, m) != Seal(k, n', m)
    {
      SealSeparatesNonces(k, n, n', m);
    }
  }

  lemma InstanceTextSound()
    ensures TextSound(Prims)
  {
    forall s: string
      ensures Decode(Encode(s)) == Some(s)
    {
      DecodeEncode(s);
    }
    forall b: seq<byte> | Decode(b).Some?
      ensures Encode(Decode(b).value) == b
    {
      EncodeDecode(b);
    }
    forall k: Key, n: Nonce, m: seq<byte>
      ensures Decode(Seal(k, n, m)).Some?
    {
      DecodeEncode(AsText(k + n + m));
    }
  }

  lemma LoadDump(key: string, value: string)
    ensures LoadJson(DumpPair(key, value)) == Some(JObject(map[key := JString(value)]))
  {
    var rest := Encode(key) + [Separator] + Encode(value);
    assert DumpPair(key, value)[1..] == rest;
    DecodeEncode(value);
    SplitEncoded(key, Encode(value));
    assert SplitPair(rest) == Some((key, value));
  }

  lemma InstanceJsonSound()
    ensures JsonSound(Prims)
  {
    forall key: string, value: string
      ensures LoadJson(DumpPair(key, value)) == Some(JObject(map[key := JString(value)]))
    {
      LoadDump(key, value);
    }
  }

  lemma InstanceTokenSound()
    ensures TokenSound(Prims)
  {
    forall k: Key, c: seq<byte> | Open(k, c).Some?
      ensures |c| >= MinTokenLength
    {
      var t := Decode(c).value;
      EncodeDecode(c);
      EncodeLength(t);
      AsBytesLength(t);
    }
  }

  lemma {:induction false} AsBytesLength(t: string)
    requires AsBytes(t).Some?
    ensures |AsBytes(t).value| == |t|
  {
    if t != [] {
      AsBytesLength(t[1..]);
    }
  }

  /** Every hypothesis the lemmas of the journal rest on holds of `Prims`. */
  lemma InstanceIsSound()
    ensures Sound(Prims) && TokenSound(Prims)
  {
    InstanceCipherSound();
    InstanceTextSound();
    InstanceJsonSound();
    InstanceTokenSound();
  }

  lemma EncodeHead(s: string)
    requires s != []
    ensures Encode(s)[..3] == EncodeChar(s[0])
  {
    SplitThree(EncodeChar(s[0]), Encode(s[1..]));
  }

  /** "wrong" and "hunter2" derive different keys under every salt. */
  lemma SessionKeysDiffer(salt: seq<byte>)
    ensures Derive(Encode("wrong"), salt) != Derive(Encode("hunter2"), salt)
  {
    var w, h := "wrong", "hunter2";
    EncodeHead(w);
    EncodeHead(h);
    assert Encode(w)[2] == 'w' as int && Encode(h)[2] == 'h' as int;
    assert Derive(Encode(w), salt)[2] != Derive(Encode(h), salt)[2];
  }

  /** The preconditions of `Crypto.Session` can be met with these primitives, under every salt. */
  lemma SessionIsCallable(salt: seq<byte>)
    ensures Sound(Prims)
    ensures Prims.kdf(Prims.utf8Encode("wrong"), salt) != Prims.kdf(Prims.utf8Encode("hunter2"), salt)
  {
    InstanceIsSound();
    SessionKeysDiffer(salt);
  }
}
