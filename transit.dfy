/** The vault client: `encryptWithVault` sends base64 of the JSON text of the data
    to the transit encrypt endpoint of a named key and keeps the ciphertext it
    answers; `decryptWithVault` sends a ciphertext to the decrypt endpoint of a
    key and turns the plaintext it answers back through base64 and JSON. The
    vault itself is a pair of functions from (key name, request field) to a
    reply. Each handler call asks each endpoint at most once, so any single
    answer of the real service can be plugged in; answers that change from one
    call to the next are modelled by giving the calls different vaults. */
module Transit {
  import opened Wrappers
  import Base64
  import JsonString

  /** A reply of the vault: a non-2xx response, or a 2xx response carrying the
      `ciphertext` (encrypt) or `plaintext` (decrypt) field. */
  datatype Reply = Failed | Ok(value: string)

  /** The two transit endpoints, by key name and request field. */
  datatype Vault = Vault(encrypt: (string, string) -> Reply, decrypt: (string, string) -> Reply)

  datatype TransitError =
    | Unencodable   // `btoa` threw: the JSON text has a character above U+00FF
    | Refused       // the vault answered a non-2xx status ('unable to encrypt')
    | NotBase64     // `atob` threw on the plaintext field
    | NotJson       // `JSON.parse` threw on the decoded text

  lemma BinaryConcat(a: string, b: string)
    ensures Base64.IsBinary(a + b) <==> Base64.IsBinary(a) && Base64.IsBinary(b)
  {
    if Base64.IsBinary(a + b) {
      forall i | 0 <= i < |a| ensures a[i] as int < 256 {
        assert (a + b)[i] == a[i];
      }
      forall i | 0 <= i < |b| ensures b[i] as int < 256 {
        assert (a + b)[|a| + i] == b[i];
      }
    }
  }

  lemma EscapeCharBinary(c: char)
    ensures Base64.IsBinary(JsonString.EscapeChar(c)) <==> (c as int) < 256
  {
    var e := JsonString.EscapeChar(c);
    if c == '"' || c == '\\' || c == '\U{8}' || c == '\U{C}' || c == '\n' || c == '\r' || c == '\t' {
      assert |e| == 2 && e[0] == '\\' && (e[1] as int) < 128;
    } else if (c as int) < 0x20 {
      assert e == "\\u00" + [JsonString.HexDigit(c as int / 16), JsonString.HexDigit(c as int % 16)];
      assert forall i :: 0 <= i < |e| ==> e[i] as int < 128;
    } else {
      assert e == [c] && e[0] == c;
      assert Base64.IsBinary(e) ==> (e[0] as int) < 256;
    }
  }

  lemma {:induction false} EscapeBinary(s: string)
    ensures Base64.IsBinary(JsonString.Escape(s)) <==> Base64.IsBinary(s)
    decreases |s|
  {
    if s != [] {
      EscapeBinary(s[1..]);
      EscapeCharBinary(s[0]);
      BinaryConcat(JsonString.EscapeChar(s[0]), JsonString.Escape(s[1..]));
      BinaryConcat([s[0]], s[1..]);
      assert [s[0]] + s[1..] == s;
    }
  }

  /** Quoting a string adds only ASCII: the JSON text is binary exactly when the
      string is. */
  lemma StringifyBinary(s: string)
    ensures Base64.IsBinary(JsonString.Stringify(s)) <==> Base64.IsBinary(s)
  {
    EscapeBinary(s);
    BinaryConcat("\"", JsonString.Escape(s));
    BinaryConcat("\"" + JsonString.Escape(s), "\"");
  }

  /** `btoa(JSON.stringify(data))`: None exactly when `btoa` throws, which is when
      the data holds a character above U+00FF. */
  function Encode(data: string): (r: Option<string>)
    ensures r.Some? <==> Base64.IsBinary(data)
  {
    StringifyBinary(data);
    Base64.Btoa(JsonString.Stringify(data))
  }

  /** `JSON.parse(atob(plaintext))`, each throw as its own error. */
  function Decode(plaintext: string): Result<string, TransitError> {
    var json := Base64.Atob(plaintext);
    if json.None? then Failure(NotBase64)
    else
      var text := JsonString.Parse(json.value);
      if text.None? then Failure(NotJson) else Success(text.value)
  }

  /** The wrapping undoes itself: whatever `Encode` produces, `Decode` maps back. */
  lemma DecodeEncode(data: string)
    requires Base64.IsBinary(data)
    ensures Decode(Encode(data).value) == Success(data)
  {
    StringifyBinary(data);
    Base64.AtobBtoa(JsonString.Stringify(data));
    JsonString.ParseStringify(data);
  }

  /** What `encryptWithVault(data, key)` returns or throws. The vault is only
      asked when the encoding succeeded. */
  function Encrypt(data: string, key: string, vault: Vault): (r: Result<string, TransitError>)
    ensures r.Success? ==> Encode(data).Some? && vault.encrypt(key, Encode(data).value) == Ok(r.value)
  {
    var plaintext := Encode(data);
    if plaintext.None? then Failure(Unencodable)
    else
      var reply := vault.encrypt(key, plaintext.value);
      if reply.Failed? then Failure(Refused) else Success(reply.value)
  }

  /** What `decryptWithVault(ciphertext, key)` returns or throws. */
  function Decrypt(ciphertext: string, key: string, vault: Vault): (r: Result<string, TransitError>)
    ensures r.Success? ==> vault.decrypt(key, ciphertext).Ok?
  {
    var reply := vault.decrypt(key, ciphertext);
    if reply.Failed? then Failure(Refused) else Decode(reply.value)
  }

  /** A non-2xx vault reply is a failure on both paths, never an empty success. */
  lemma RefusalIsFailure(data: string, ciphertext: string, key: string, vault: Vault)
    ensures Encode(data).Some? && vault.encrypt(key, Encode(data).value).Failed? ==>
              Encrypt(data, key, vault) == Failure(Refused)
    ensures vault.decrypt(key, ciphertext).Failed? ==> Decrypt(ciphertext, key, vault) == Failure(Refused)
  {
  }

  /** Encryption fails without asking the vault exactly when the data cannot be
      encoded, and otherwise succeeds exactly when the vault does. */
  lemma EncryptOutcome(data: string, key: string, vault: Vault)
    ensures !Base64.IsBinary(data) <==> Encrypt(data, key, vault) == Failure(Unencodable)
    ensures Base64.IsBinary(data) ==>
              (Encrypt(data, key, vault).Success? <==> vault.encrypt(key, Encode(data).value).Ok?)
  {
  }

  /** A vault whose decrypt endpoint gives back, under the same key, the plaintext
      its encrypt endpoint was given. */
  ghost predicate Inverts(vault: Vault) {
    forall key: string, plaintext: string ::
      vault.encrypt(key, plaintext).Ok? ==>
        vault.decrypt(key, vault.encrypt(key, plaintext).value) == Ok(plaintext)
  }

  /** decrypt(encrypt(d)) == d through a vault that inverts itself. */
  lemma TransitRoundTrip(data: string, key: string, vault: Vault)
    requires Inverts(vault)
    requires Encrypt(data, key, vault).Success?
    ensures Decrypt(Encrypt(data, key, vault).value, key, vault) == Success(data)
  {
    DecodeEncode(data);
  }
}
