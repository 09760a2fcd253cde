/**
 * The client's encryption helper: a singleton holding a Web Crypto key and a
 * flag saying whether encryption works in this browser.  The cryptography is
 * opaque; what is modelled is the helper's own logic around it: the guards on
 * `key` and `isSupported`, the base64 padding, the byte-copy loop, and the
 * `iv ++ ciphertext` framing that `encrypt` builds and `decrypt` takes apart.
 */
module ClientEncryption {
  import opened Wrappers

  /** A `Uint8Array` element. */
  newtype byte = x: int | 0 <= x < 256

  /** Constants the constructor stores and never changes. */
  const Algorithm := "AES-GCM"
  const KeyLength := 256
  const IvLength := 12
  const TagLength := 128

  /** An opaque Web Crypto key handle. */
  datatype CryptoKey = CryptoKey(handle: nat)

  /**
   * Why a call rejected: no key, an `atob` failure, a Web Crypto failure, or
   * the engine's `RangeError` for a call spread over too many arguments.
   */
  datatype Failure = NoKey | InvalidBase64 | OperationFailed | TooManyArguments

  /**
   * The browser functions the helper calls and cannot see into.  A `None`
   * result stands for a call that throws or whose promise rejects; text
   * encoding and decoding are folded into `encrypt` and `decrypt`.
   * `argumentLimit` is the engine's cap on the number of arguments a call
   * may be spread over.
   */
  datatype Browser = Browser(
    argumentLimit: nat,
    btoa: string -> string,
    atob: string -> Option<string>,
    exportKey: CryptoKey -> Option<seq<byte>>,
    importKey: seq<byte> -> Option<CryptoKey>,
    encrypt: (CryptoKey, seq<byte>, string) -> Option<seq<byte>>,
    decrypt: (CryptoKey, seq<byte>, seq<byte>) -> Option<string>)

  // ---------------------------------------------------------------------
  // Base64 padding

  /** `String.prototype.padEnd` with a one-character filler. */
  function PadEnd(s: string, targetLength: int, filler: char): (r: string)
    ensures |r| == if targetLength <= |s| then |s| else targetLength
    ensures r[..|s|] == s
    ensures forall i :: |s| <= i < |r| ==> r[i] == filler
  {
    if targetLength <= |s| then s else s + seq(targetLength - |s|, _ => filler)
  }

  /** The padding step of `base64ToArrayBuffer`: pad with '=' to a multiple of four. */
  function PaddedBase64(base64: string): (r: string)
    ensures |r| % 4 == 0
    ensures |base64| <= |r| < |base64| + 4
    ensures r[..|base64|] == base64
    ensures forall i :: |base64| <= i < |r| ==> r[i] == '='
  {
    PadEnd(base64, |base64| + (4 - |base64| % 4) % 4, '=')
  }

  /** Text whose length is already a multiple of four is not padded, so padding twice pads once. */
  lemma PaddingIsIdempotent(base64: string)
    ensures |base64| % 4 == 0 ==> PaddedBase64(base64) == base64
    ensures PaddedBase64(PaddedBase64(base64)) == PaddedBase64(base64)
  {
  }

  /** The padded text is the only extension of the input by fewer than four '=' to a multiple of four. */
  lemma PaddingIsUnique(base64: string, padded: string)
    requires |padded| % 4 == 0 && |base64| <= |padded| < |base64| + 4
    requires padded[..|base64|] == base64
    requires forall i :: |base64| <= i < |padded| ==> padded[i] == '='
    ensures padded == PaddedBase64(base64)
  {
  }

  // ---------------------------------------------------------------------
  // Binary strings and bytes

  /** Storing `charCodeAt` into a `Uint8Array` keeps the code modulo 256. */
  function ByteOf(c: char): byte {
    ((c as int) % 256) as byte
  }

  /** The bytes the copy loop of `base64ToArrayBuffer` produces from a binary string. */
  function CharCodes(binary: string): (r: seq<byte>)
    ensures |r| == |binary|
    ensures forall i :: 0 <= i < |binary| ==> r[i] == ByteOf(binary[i])
    decreases |binary|
  {
    if binary == [] then [] else [ByteOf(binary[0])] + CharCodes(binary[1..])
  }

  /** `String.fromCharCode(...bytes)`: one character per byte, with that byte as its code. */
  function BinaryString(bytes: seq<byte>): (r: string)
    ensures |r| == |bytes|
    ensures forall i :: 0 <= i < |bytes| ==> r[i] as int == bytes[i] as int
    decreases |bytes|
  {
    if bytes == [] then [] else [(bytes[0] as int) as char] + BinaryString(bytes[1..])
  }

  /** A string every character of which has a code below 256, as `atob` returns. */
  predicate IsBinaryString(s: string) {
    forall i :: 0 <= i < |s| ==> s[i] as int < 256
  }

  /** Copying the character codes of a binary string recovers the bytes it was built from. */
  lemma CharCodesOfBinaryString(bytes: seq<byte>)
    ensures IsBinaryString(BinaryString(bytes))
    ensures CharCodes(BinaryString(bytes)) == bytes
  {
  }

  /** Building a binary string from the copied codes gives back the string. */
  lemma BinaryStringOfCharCodes(s: string)
    requires IsBinaryString(s)
    ensures BinaryString(CharCodes(s)) == s
  {
  }

  /**
   * `arrayBufferToBase64`: the binary string of the bytes, through `btoa`.
   * `String.fromCharCode(...bytes)` passes every byte as an argument, so a
   * buffer longer than the engine's argument limit throws a `RangeError`.
   */
  function ArrayBufferToBase64(buffer: seq<byte>, browser: Browser): (r: Result<string, Failure>)
    ensures r.Err? <==> |buffer| > browser.argumentLimit
    ensures r.Err? ==> r.error == TooManyArguments
    ensures r.Ok? ==> r.value == browser.btoa(BinaryString(buffer))
  {
    if |buffer| > browser.argumentLimit then Err(TooManyArguments)
    else Ok(browser.btoa(BinaryString(buffer)))
  }

  // ---------------------------------------------------------------------
  // Framing: iv ++ ciphertext

  /** `ArrayBuffer.prototype.slice(begin, end)` for non-negative bounds, clamped to the length. */
  function Slice(buffer: seq<byte>, begin: nat, end: nat): (r: seq<byte>)
    ensures begin <= end <= |buffer| ==> r == buffer[begin..end]
    ensures begin <= |buffer| <= end ==> r == buffer[begin..]
    ensures |buffer| <= begin || end <= begin ==> r == []
  {
    var b := if begin < |buffer| then begin else |buffer|;
    var e := if end < |buffer| then end else |buffer|;
    if b < e then buffer[b..e] else []
  }

  /** The split in `decrypt`: the first `IvLength` bytes are the IV, the rest the ciphertext. */
  function Unframe(combined: seq<byte>): (r: (seq<byte>, seq<byte>))
    ensures r.0 + r.1 == combined
    ensures |combined| >= IvLength ==> |r.0| == IvLength
    ensures |combined| < IvLength ==> r.0 == combined && r.1 == []
  {
    (Slice(combined, 0, IvLength), Slice(combined, IvLength, |combined|))
  }

  /** Splitting a framed buffer gives back the IV and the ciphertext it was framed from. */
  lemma UnframeInvertsFrame(iv: seq<byte>, ciphertext: seq<byte>)
    requires |iv| == IvLength
    ensures Unframe(iv + ciphertext) == (iv, ciphertext)
  {
  }

  /** Build `combined` as in `encrypt`: a fresh array, the IV set at 0 and the ciphertext after it. */
  method Frame(iv: seq<byte>, ciphertext: seq<byte>) returns (combined: array<byte>)
    ensures combined.Length == |iv| + |ciphertext|
    ensures combined[..|iv|] == iv && combined[|iv|..] == ciphertext
    ensures combined[..] == iv + ciphertext
  {
    combined := new byte[|iv| + |ciphertext|];
    forall i | 0 <= i < |iv| {
      combined[i] := iv[i];
    }
    forall i | 0 <= i < |ciphertext| {
      combined[|iv| + i] := ciphertext[i];
    }
    assert combined[..] == iv + ciphertext;
  }

  // ---------------------------------------------------------------------
  // What encrypt and decrypt resolve to once a key is present

  /** The result of `encrypt` with key `key` and IV `iv`. */
  function EncryptedWith(browser: Browser, key: CryptoKey, iv: seq<byte>, message: string): Result<string, Failure> {
    match browser.encrypt(key, iv, message)
    case None => Err(OperationFailed)
    case Some(ciphertext) => ArrayBufferToBase64(iv + ciphertext, browser)
  }

  /** The result of `decrypt` with key `key`. */
  function DecryptedWith(browser: Browser, key: CryptoKey, encryptedMessage: string): Result<string, Failure> {
    match browser.atob(PaddedBase64(encryptedMessage))
    case None => Err(InvalidBase64)
    case Some(binary) =>
      var parts := Unframe(CharCodes(binary));
      match browser.decrypt(key, parts.0, parts.1)
      case None => Err(OperationFailed)
      case Some(message) => Ok(message)
  }

  /** The key `importKey` installs for a base64 key, or `None` when a call fails. */
  function ImportedKey(browser: Browser, base64Key: string): Option<CryptoKey> {
    match browser.atob(PaddedBase64(base64Key))
    case None => None
    case Some(binary) => browser.importKey(CharCodes(binary))
  }

  /** `atob` undoes `btoa` on binary strings, and `btoa` output is already padded. */
  ghost predicate Base64Inverse(browser: Browser) {
    forall bytes: seq<byte> ::
      var encoded := browser.btoa(BinaryString(bytes));
      browser.atob(encoded) == Some(BinaryString(bytes)) && |encoded| % 4 == 0
  }

  /** AES-GCM decryption with the same key and IV opens what encryption sealed. */
  ghost predicate GcmInverse(browser: Browser) {
    forall key, iv, message ::
      browser.encrypt(key, iv, message).Some? ==>
        browser.decrypt(key, iv, browser.encrypt(key, iv, message).value) == Some(message)
  }

  /** Decrypting what `encrypt` produced with the same key gives back the message. */
  lemma {:induction false} DecryptInvertsEncrypt(browser: Browser, key: CryptoKey, iv: seq<byte>, message: string)
    requires Base64Inverse(browser) && GcmInverse(browser)
    requires |iv| == IvLength
    ensures EncryptedWith(browser, key, iv, message).Ok? ==>
      DecryptedWith(browser, key, EncryptedWith(browser, key, iv, message).value) == Ok(message)
  {
    if browser.encrypt(key, iv, message).Some? {
      var ciphertext := browser.encrypt(key, iv, message).value;
      var encoded := browser.btoa(BinaryString(iv + ciphertext));
      assert browser.atob(encoded) == Some(BinaryString(iv + ciphertext));
      PaddingIsIdempotent(encoded);
      CharCodesOfBinaryString(iv + ciphertext);
      UnframeInvertsFrame(iv, ciphertext);
    }
  }

  /** The encryption helper singleton. */
  class Encryption {
    var key: Option<CryptoKey>
    var isSupported: bool

    /** The field initialisation of the constructor, before `initialize()` runs. */
    constructor()
      ensures key == None && !isSupported
    {
      key := None;
      isSupported := false;
    }

    /**
     * `initialize()`, run to completion.  Its call of `generateKey` sees
     * `isSupported` still false and returns at once, so no key is made.
     */
    method Initialize(cryptoAvailable: bool, generated: Option<CryptoKey>, browser: Browser)
      modifies this
      ensures isSupported == cryptoAvailable
      ensures !cryptoAvailable ==> key == old(key)
      ensures !old(isSupported) ==> key == old(key)
      ensures old(isSupported) && cryptoAvailable && generated.Some? ==> key == generated
      ensures generated.None? ==> key == old(key)
    {
      if !cryptoAvailable {
        isSupported := false;
        return;
      }
      var exported := GenerateKey(generated, browser);
      isSupported := true;
    }

    /**
     * `generateKey()`: `generated` is what Web Crypto's key generation
     * resolves to.  The key is stored before it is exported, so a failed
     * export leaves the new key in place but turns encryption off.
     */
    method GenerateKey(generated: Option<CryptoKey>, browser: Browser) returns (r: Option<string>)
      modifies this
      ensures !old(isSupported) ==> r == None && key == old(key) && !isSupported
      ensures old(isSupported) && generated.None? ==> r == None && key == old(key) && !isSupported
      ensures old(isSupported) && generated.Some? ==>
        key == generated &&
        match browser.exportKey(generated.value)
        case None => r == None && !isSupported
        case Some(raw) =>
          match ArrayBufferToBase64(raw, browser)
          case Err(_) => r == None && !isSupported
          case Ok(encoded) => r == Some(encoded) && isSupported
    {
      if !isSupported {
        return None;
      }
      if generated.None? {
        isSupported := false;
        return None;
      }
      key := generated;
      var exported := browser.exportKey(generated.value);
      if exported.None? {
        isSupported := false;
        return None;
      }
      var encoded := ArrayBufferToBase64(exported.value, browser);
      if encoded.Err? {
        isSupported := false;
        return None;
      }
      r := Some(encoded.value);
    }

    /** `importKey(base64Key)`: any failure turns encryption off and keeps the old key. */
    method ImportKey(base64Key: string, browser: Browser) returns (ok: bool)
      modifies this
      ensures !old(isSupported) ==> !ok && key == old(key) && !isSupported
      ensures old(isSupported) ==>
        match ImportedKey(browser, base64Key)
        case None => !ok && key == old(key) && !isSupported
        case Some(k) => ok && key == Some(k) && isSupported
    {
      if !isSupported {
        return false;
      }
      var binaryKey := Base64ToArrayBuffer(base64Key, browser.atob);
      if binaryKey.Err? {
        isSupported := false;
        return false;
      }
      var imported := browser.importKey(binaryKey.value);
      if imported.None? {
        isSupported := false;
        return false;
      }
      key := imported;
      ok := true;
    }

    /**
     * `encrypt(message)`: `randomIv` holds the `IvLength` bytes
     * `getRandomValues` fills the IV with.
     */
    method Encrypt(message: string, randomIv: seq<byte>, browser: Browser) returns (r: Result<string, Failure>)
      requires |randomIv| == IvLength
      ensures key.None? ==> r == Err(NoKey)
      ensures key.Some? ==> r == EncryptedWith(browser, key.value, randomIv, message)
    {
      if key.None? {
        return Err(NoKey);
      }
      var iv := randomIv;
      var encrypted := browser.encrypt(key.value, iv, message);
      if encrypted.None? {
        return Err(OperationFailed);
      }
      var combined := Frame(iv, encrypted.value);
      r := ArrayBufferToBase64(combined[..], browser);
    }

    /** `decrypt(encryptedMessage)`. */
    method Decrypt(encryptedMessage: string, browser: Browser) returns (r: Result<string, Failure>)
      ensures key.None? ==> r == Err(NoKey)
      ensures key.Some? ==> r == DecryptedWith(browser, key.value, encryptedMessage)
    {
      if key.None? {
        return Err(NoKey);
      }
      var combined := Base64ToArrayBuffer(encryptedMessage, browser.atob);
      if combined.Err? {
        return Err(combined.error);
      }
      var iv := Slice(combined.value, 0, IvLength);
      var encryptedData := Slice(combined.value, IvLength, |combined.value|);
      var decrypted := browser.decrypt(key.value, iv, encryptedData);
      if decrypted.None? {
        return Err(OperationFailed);
      }
      r := Ok(decrypted.value);
    }

    /**
     * `base64ToArrayBuffer(base64)`: pad, decode with `atob`, then copy the
     * character codes one by one into a fresh byte array.
     */
    method Base64ToArrayBuffer(base64: string, atob: string -> Option<string>) returns (r: Result<seq<byte>, Failure>)
      ensures atob(PaddedBase64(base64)).None? ==> r == Err(InvalidBase64)
      ensures atob(PaddedBase64(base64)).Some? ==> r == Ok(CharCodes(atob(PaddedBase64(base64)).value))
    {
      var paddedBase64 := PaddedBase64(base64);
      var decoded := atob(paddedBase64);
      if decoded.None? {
        return Err(InvalidBase64);
      }
      var binary := decoded.value;
      var bytes := new byte[|binary|];
      for i := 0 to |binary|
        invariant forall k :: 0 <= k < i ==> bytes[k] == ByteOf(binary[k])
      {
        bytes[i] := ByteOf(binary[i]);
      }
      assert bytes[..] == CharCodes(binary);
      r := Ok(bytes[..]);
    }
  }

  /**
   * The singleton as the module creates it: constructed, then initialised.
   * Even when Web Crypto is available and reported as supported, no key is
   * held, so a first `encrypt` rejects with the missing-key error.
   */
  method EncryptAfterStartup(cryptoAvailable: bool, generated: Option<CryptoKey>, browser: Browser,
                             message: string, randomIv: seq<byte>) returns (supported: bool, r: Result<string, Failure>)
    requires |randomIv| == IvLength
    ensures supported == cryptoAvailable
    ensures r == Err(NoKey)
  {
    var encryption := new Encryption();
    encryption.Initialize(cryptoAvailable, generated, browser);
    supported := encryption.isSupported;
    r := encryption.Encrypt(message, randomIv, browser);
  }
}
