/** Signed file access tokens (server/filetoken/filetoken.go): unpadded base64url (section 5 of
    RFC 4648) around a JSON payload and its HMAC. */
module FileToken {
  import opened Prelude
  import Strings

  // ---- base64url ------------------------------------------------------------------------

  type Sextet = v: nat | v < 64

  function Symbol(v: Sextet): char
  {
    if v < 26 then 'A' + v as char
    else if v < 52 then 'a' + (v - 26) as char
    else if v < 62 then '0' + (v - 52) as char
    else if v == 62 then '-' else '_'
  }

  function SymbolValue(c: char): Option<Sextet>
  {
    if 'A' <= c <= 'Z' then Some((c - 'A') as nat)
    else if 'a' <= c <= 'z' then Some((c - 'a') as nat + 26)
    else if '0' <= c <= '9' then Some((c - '0') as nat + 52)
    else if c == '-' then Some(62)
    else if c == '_' then Some(63)
    else None
  }

  lemma SymbolInverse(v: Sextet)
    ensures SymbolValue(Symbol(v)) == Some(v)
  {
  }

  // The four six-bit values of three bytes, and the three bytes of four such values.

  function High(b0: byte): Sextet { b0 as nat / 4 }

  function Middle(b0: byte, b1: byte): Sextet { b0 as nat % 4 * 16 + b1 as nat / 16 }

  function Lower(b1: byte, b2: byte): Sextet { b1 as nat % 16 * 4 + b2 as nat / 64 }

  function Low(b2: byte): Sextet { b2 as nat % 64 }

  function First(v0: Sextet, v1: Sextet): byte { (v0 * 4 + v1 / 16) as byte }

  function Second(v1: Sextet, v2: Sextet): byte { (v1 % 16 * 16 + v2 / 4) as byte }

  function Third(v2: Sextet, v3: Sextet): byte { (v2 % 4 * 64 + v3) as byte }

  lemma FirstBack(b0: byte, b1: byte)
    ensures First(High(b0), Middle(b0, b1)) == b0
  {
  }

  lemma SecondBack(b0: byte, b1: byte, b2: byte)
    ensures Second(Middle(b0, b1), Lower(b1, b2)) == b1
  {
    assert Middle(b0, b1) % 16 == b1 as nat / 16;
    assert Lower(b1, b2) / 4 == b1 as nat % 16;
  }

  lemma ThirdBack(b1: byte, b2: byte)
    ensures Third(Lower(b1, b2), Low(b2)) == b2
  {
    assert Lower(b1, b2) % 4 == b2 as nat / 64;
  }

  /** Three bytes make four six-bit values; a short last group makes one more value than it has
      bytes, its low bits zero. */
  function Sextets(b: Bytes): seq<Sextet>
  {
    if b == [] then []
    else if |b| == 1 then [High(b[0]), Middle(b[0], 0)]
    else if |b| == 2 then [High(b[0]), Middle(b[0], b[1]), Lower(b[1], 0)]
    else [High(b[0]), Middle(b[0], b[1]), Lower(b[1], b[2]), Low(b[2])] + Sextets(b[3..])
  }

  /** Unused low bits of a short last group are ignored; a last group of one value is an error. */
  function FromSextets(v: seq<Sextet>): Option<Bytes>
  {
    if v == [] then Some([])
    else if |v| == 1 then None
    else if |v| == 2 then Some([First(v[0], v[1])])
    else if |v| == 3 then Some([First(v[0], v[1]), Second(v[1], v[2])])
    else
      match FromSextets(v[4..])
      case None => None
      case Some(rest) => Some([First(v[0], v[1]), Second(v[1], v[2]), Third(v[2], v[3])] + rest)
  }

  function Symbols(v: seq<Sextet>): string
  {
    if v == [] then "" else [Symbol(v[0])] + Symbols(v[1..])
  }

  /** Any character outside the alphabet is an error, except line breaks, which are passed over. */
  function Values(s: string): Option<seq<Sextet>>
  {
    if s == "" then Some([])
    else if s[0] == '\r' || s[0] == '\n' then Values(s[1..])
    else
      match (SymbolValue(s[0]), Values(s[1..]))
      case (Some(v), Some(rest)) => Some([v] + rest)
      case _ => None
  }

  /** base64.RawURLEncoding.EncodeToString. */
  function Encode(b: Bytes): string
  {
    Symbols(Sextets(b))
  }

  /** base64.RawURLEncoding.DecodeString. */
  function Decode(s: string): Option<Bytes>
  {
    match Values(s)
    case None => None
    case Some(v) => FromSextets(v)
  }

  lemma {:induction false} TwoSymbols(v: Sextet, w: Sextet)
    ensures Symbols([v, w]) == [Symbol(v), Symbol(w)]
  {
    var none: seq<Sextet> := [];
    assert [w][1..] == none && Symbols([w]) == [Symbol(w)];
    assert [v, w][1..] == [w] && Symbols([v, w]) == [Symbol(v)] + Symbols([w]);
  }

  lemma {:induction false} FourSymbols(v: Sextet, w: Sextet, x: Sextet, y: Sextet)
    ensures Symbols([v, w, x]) == [Symbol(v), Symbol(w), Symbol(x)]
    ensures Symbols([v, w, x, y]) == [Symbol(v), Symbol(w), Symbol(x), Symbol(y)]
  {
    TwoSymbols(w, x);
    TwoSymbols(x, y);
    assert [v, w, x][1..] == [w, x] && [v, w, x, y][1..] == [w, x, y] && [w, x, y][1..] == [x, y];
  }

  /** Three of the examples of section 10 of RFC 4648, without padding, and one with both of the
      characters in which base64url differs from base64. */
  lemma {:induction false} EncodesAsPublished()
    ensures Encode([102]) == "Zg" && Encode([102, 111]) == "Zm8" && Encode([102, 111, 111]) == "Zm9v"
    ensures Encode([251, 255]) == "-_8"
  {
    TwoSymbols(25, 32);
    FourSymbols(25, 38, 60, 0);
    FourSymbols(62, 63, 60, 0);
    FooEncodes();
  }

  lemma {:induction false} FooEncodes()
    ensures Encode([102, 111, 111]) == "Zm9v"
  {
    FourSymbols(25, 38, 61, 47);
    var b: Bytes := [102, 111, 111];
    assert b[3..] == [] && Sextets(b) == [25, 38, 61, 47] + Sextets([]);
    assert [25, 38, 61, 47] + Sextets([]) == [25, 38, 61, 47];
  }

  lemma {:induction false} SextetsRoundTrip(b: Bytes)
    ensures FromSextets(Sextets(b)) == Some(b)
  {
    if |b| > 2 {
      SextetsRoundTrip(b[3..]);
      FirstBack(b[0], b[1]);
      SecondBack(b[0], b[1], b[2]);
      ThirdBack(b[1], b[2]);
      assert Sextets(b)[4..] == Sextets(b[3..]);
      assert b == [b[0], b[1], b[2]] + b[3..];
    } else if |b| == 2 {
      FirstBack(b[0], b[1]);
      SecondBack(b[0], b[1], 0);
      assert b == [b[0], b[1]];
    } else if |b| == 1 {
      FirstBack(b[0], 0);
      assert b == [b[0]];
    }
  }

  lemma {:induction false} SymbolsRoundTrip(v: seq<Sextet>)
    ensures Values(Symbols(v)) == Some(v)
    ensures '.' !in Symbols(v) && NUL !in Symbols(v)
  {
    if v != [] {
      SymbolInverse(v[0]);
      SymbolsRoundTrip(v[1..]);
      var s := Symbols(v);
      assert s[0] == Symbol(v[0]) && s[1..] == Symbols(v[1..]);
      assert [v[0]] + v[1..] == v;
    }
  }

  predicate InAlphabet(c: char)
  {
    'A' <= c <= 'Z' || 'a' <= c <= 'z' || '0' <= c <= '9' || c == '-' || c == '_'
  }

  /** The characters that count: line breaks do not. */
  function Counting(s: string): nat
  {
    if s == "" then 0 else Counting(s[1..]) + if s[0] == '\r' || s[0] == '\n' then 0 else 1
  }

  lemma {:induction false} ValuesOfAlphabet(s: string)
    ensures Values(s).Some? <==> forall i :: 0 <= i < |s| ==> InAlphabet(s[i]) || s[i] == '\r' || s[i] == '\n'
    ensures Values(s).Some? ==> |Values(s).value| == Counting(s)
  {
    if s != "" {
      ValuesOfAlphabet(s[1..]);
      assert forall i :: 1 <= i < |s| ==> s[i] == s[1..][i - 1];
      assert forall i :: 0 <= i < |s[1..]| ==> s[1..][i] == s[i + 1];
    }
  }

  lemma {:induction false} WholeGroups(v: seq<Sextet>)
    ensures FromSextets(v).Some? <==> |v| % 4 != 1
    decreases |v|
  {
    if |v| > 3 {
      WholeGroups(v[4..]);
    }
  }

  /** A text decodes exactly when it holds nothing but the alphabet and line breaks, and does not end
      with a single character of a group. */
  lemma {:induction false} DecodesIff(s: string)
    ensures Decode(s).Some? <==>
      && (forall i :: 0 <= i < |s| ==> InAlphabet(s[i]) || s[i] == '\r' || s[i] == '\n')
      && Counting(s) % 4 != 1
  {
    ValuesOfAlphabet(s);
    if Values(s).Some? {
      WholeGroups(Values(s).value);
    }
  }

  /** Decoding undoes encoding, and an encoding never contains the token's separator or a NUL. */
  lemma Base64RoundTrip(b: Bytes)
    ensures Decode(Encode(b)) == Some(b)
    ensures '.' !in Encode(b) && NUL !in Encode(b)
  {
    SextetsRoundTrip(b);
    SymbolsRoundTrip(Sextets(b));
  }

  // ---- Signature comparison -------------------------------------------------------------

  const NUL: char := '\0'

  function Padded(s: string, n: nat): string
    requires |s| <= n
  {
    s + seq(n - |s|, _ => NUL)
  }

  /** timingSafeEqual: strings of different lengths are padded with NULs before comparing. */
  predicate TimingSafeEqual(a: string, b: string)
  {
    if |a| != |b| then
      var n := if |b| > |a| then |b| else |a|;
      Padded(a, n) == Padded(b, n)
    else a == b
  }

  function WithoutTrailingNuls(s: string): string
  {
    if s != "" && s[|s| - 1] == NUL then WithoutTrailingNuls(s[..|s| - 1]) else s
  }

  lemma {:induction false} TrailingNulsOnly(s: string)
    ensures |WithoutTrailingNuls(s)| <= |s|
    ensures s == Padded(WithoutTrailingNuls(s), |s|)
    ensures var t := WithoutTrailingNuls(s); t == "" || t[|t| - 1] != NUL
  {
    if s != "" && s[|s| - 1] == NUL {
      TrailingNulsOnly(s[..|s| - 1]);
      var t := WithoutTrailingNuls(s);
      assert s == s[..|s| - 1] + [NUL];
      assert s == Padded(t, |s|);
    }
  }

  lemma NotLonger(a: string, b: string, n: nat)
    requires |a| <= n && |b| <= n && Padded(a, n) == Padded(b, n)
    requires b == "" || b[|b| - 1] != NUL
    ensures |b| <= |a|
  {
    if b != "" {
      var i := |b| - 1;
      assert Padded(b, n)[i] == b[i];
      assert forall k :: |a| <= k < n ==> Padded(a, n)[k] == NUL;
    }
  }

  /** A string is its part before the trailing NULs, padded to its length, in just one way. */
  lemma PaddingUnique(a: string, b: string, n: nat)
    requires |a| <= n && |b| <= n && Padded(a, n) == Padded(b, n)
    requires a == "" || a[|a| - 1] != NUL
    requires b == "" || b[|b| - 1] != NUL
    ensures a == b
  {
    NotLonger(a, b, n);
    NotLonger(b, a, n);
    assert a == Padded(a, n)[..|a|] && b == Padded(b, n)[..|b|];
  }

  lemma PadTwice(s: string, m: nat, n: nat)
    requires |s| <= m <= n
    ensures Padded(Padded(s, m), n) == Padded(s, n)
  {
  }

  /** The comparison is equality up to trailing NULs, not equality. */
  lemma {:induction false} EqualUpToTrailingNuls(a: string, b: string)
    ensures TimingSafeEqual(a, b) <==> WithoutTrailingNuls(a) == WithoutTrailingNuls(b)
  {
    var n := if |b| > |a| then |b| else |a|;
    var s, t := WithoutTrailingNuls(a), WithoutTrailingNuls(b);
    TrailingNulsOnly(a);
    TrailingNulsOnly(b);
    PadTwice(s, |a|, n);
    PadTwice(t, |b|, n);
    if TimingSafeEqual(a, b) {
      PaddingUnique(s, t, n);
    }
  }

  // ---- Tokens ---------------------------------------------------------------------------

  const DEFAULT_TTL: int := 60 * 60 * 24 * 30
  const MAX_TTL: int := 60 * 60 * 24 * 365
  const MIN_TTL: int := 60

  datatype Payload = Payload(
    tokenId: string, dbName: string, scope: string, expiresAt: int,
    filename: string, contentType: string, folderPath: string)

  /** The library calls: JSON in both directions, and HMAC-SHA256. */
  datatype Crypto = Crypto(
    marshal: Payload -> Bytes, unmarshal: Bytes -> Option<Payload>, mac: (Bytes, string) -> Bytes)

  datatype TokenError =
    | NoSecret | Malformed | InvalidSignature | BadBase64 | BadJson | MissingFields | Expired

  datatype Issued = Issued(token: string, payload: Payload, expiresIn: int)

  /** Not positive means the default; then clamped to the allowed range. */
  function ClampTtl(requested: int): (ttl: int)
    ensures 60 <= ttl <= 31_536_000
    ensures 60 <= requested <= 31_536_000 ==> ttl == requested
    ensures 0 < requested < 60 ==> ttl == 60
    ensures requested > 31_536_000 ==> ttl == 31_536_000
    ensures requested <= 0 ==> ttl == 30 * 24 * 60 * 60
  {
    var ttl := if requested <= 0 then DEFAULT_TTL else requested;
    if ttl < MIN_TTL then MIN_TTL else if ttl > MAX_TTL then MAX_TTL else ttl
  }

  function Signature(c: Crypto, secret: Bytes, payload64: string): string
  {
    Encode(c.mac(secret, payload64))
  }

  function Seal(c: Crypto, secret: Bytes, p: Payload): string
  {
    var payload64 := Encode(c.marshal(p));
    payload64 + "." + Signature(c, secret, payload64)
  }

  /** Create: id is the fresh UUID, now the Unix time. */
  function Create(c: Crypto, secret: Bytes, dbName: string, requested: int, id: string, now: int)
    : Result<Issued, TokenError>
  {
    if secret == [] then Err(NoSecret)
    else
      var p := Payload(id, dbName, "files:read", now + ClampTtl(requested), "", "", "");
      Ok(Issued(Seal(c, secret, p), p, ClampTtl(requested)))
  }

  /** CreateUpload: the file it authorises is part of the payload. */
  function CreateUpload(
    c: Crypto, secret: Bytes, dbName: string, filename: string, contentType: string, folderPath: string,
    requested: int, id: string, now: int): Result<Issued, TokenError>
  {
    if secret == [] then Err(NoSecret)
    else
      var p := Payload(id, dbName, "files:write", now + ClampTtl(requested), filename, contentType, folderPath);
      Ok(Issued(Seal(c, secret, p), p, ClampTtl(requested)))
  }

  function Verify(c: Crypto, secret: Bytes, token: string, now: int): Result<Payload, TokenError>
  {
    if secret == [] then Err(NoSecret)
    else
      var (payload64, rest) := Strings.CutAt(token, '.');
      match rest
      case None => Err(Malformed)
      case Some(provided) =>
        if !TimingSafeEqual(provided, Signature(c, secret, payload64)) then Err(InvalidSignature)
        else
          match Decode(payload64)
          case None => Err(BadBase64)
          case Some(json) =>
            match c.unmarshal(json)
            case None => Err(BadJson)
            case Some(p) =>
              if p.dbName == "" || p.tokenId == "" || p.scope == "" then Err(MissingFields)
              else if p.expiresAt < now then Err(Expired)
              else Ok(p)
  }

  /** What Verify makes of payload and signature it can take apart. */
  lemma VerifySealed(c: Crypto, secret: Bytes, p: Payload, suffix: string, now: int)
    requires secret != [] && c.unmarshal(c.marshal(p)) == Some(p)
    requires forall i :: 0 <= i < |suffix| ==> suffix[i] == NUL
    ensures Verify(c, secret, Seal(c, secret, p) + suffix, now) ==
      if p.dbName == "" || p.tokenId == "" || p.scope == "" then Err(MissingFields)
      else if now <= p.expiresAt then Ok(p) else Err(Expired)
  {
    var payload64 := Encode(c.marshal(p));
    var sig := Signature(c, secret, payload64);
    Base64RoundTrip(c.marshal(p));
    Base64RoundTrip(c.mac(secret, payload64));
    assert Seal(c, secret, p) + suffix == payload64 + "." + (sig + suffix);
    Strings.CutAtFirst(payload64, '.', sig + suffix);
    NulsIgnored(sig, suffix);
    EqualUpToTrailingNuls(sig + suffix, sig);
  }

  lemma {:induction false} NulsIgnored(s: string, suffix: string)
    requires forall i :: 0 <= i < |suffix| ==> suffix[i] == NUL
    ensures WithoutTrailingNuls(s + suffix) == WithoutTrailingNuls(s)
  {
    if suffix == "" {
      assert s + suffix == s;
    } else {
      assert (s + suffix)[..|s + suffix| - 1] == s + suffix[..|suffix| - 1];
      NulsIgnored(s, suffix[..|suffix| - 1]);
    }
  }

  /** A token from Create verifies to its payload up to and including its expiry second, and to
      an error afterwards; its lifetime is always between a minute and a year. */
  lemma CreateRoundTrip(c: Crypto, secret: Bytes, dbName: string, requested: int, id: string, now: int, later: int)
    requires secret != [] && dbName != "" && id != ""
    requires var p := Create(c, secret, dbName, requested, id, now).value.payload;
      c.unmarshal(c.marshal(p)) == Some(p)
    ensures var issued := Create(c, secret, dbName, requested, id, now).value;
      && issued.payload.dbName == dbName && issued.payload.tokenId == id && issued.payload.scope == "files:read"
      && issued.payload.expiresAt == now + ClampTtl(requested) && issued.expiresIn == ClampTtl(requested)
      && (var payload64 := Encode(c.marshal(issued.payload));
          issued.token == payload64 + "." + Encode(c.mac(secret, payload64)))
      && now + 60 <= issued.payload.expiresAt <= now + 31_536_000
      && Verify(c, secret, issued.token, later) ==
         if later <= issued.payload.expiresAt then Ok(issued.payload) else Err(Expired)
  {
    var issued := Create(c, secret, dbName, requested, id, now).value;
    VerifySealed(c, secret, issued.payload, "", later);
    assert issued.token + "" == issued.token;
  }

  lemma CreateUploadRoundTrip(
    c: Crypto, secret: Bytes, dbName: string, filename: string, contentType: string, folderPath: string,
    requested: int, id: string, now: int, later: int)
    requires secret != [] && dbName != "" && id != ""
    requires var p := CreateUpload(c, secret, dbName, filename, contentType, folderPath, requested, id, now).value.payload;
      c.unmarshal(c.marshal(p)) == Some(p)
    ensures var issued := CreateUpload(c, secret, dbName, filename, contentType, folderPath, requested, id, now).value;
      && issued.payload == Payload(id, dbName, "files:write", issued.payload.expiresAt, filename, contentType, folderPath)
      && issued.payload.expiresAt == now + ClampTtl(requested) && issued.expiresIn == ClampTtl(requested)
      && (var payload64 := Encode(c.marshal(issued.payload));
          issued.token == payload64 + "." + Encode(c.mac(secret, payload64)))
      && now + 60 <= issued.payload.expiresAt <= now + 31_536_000
      && Verify(c, secret, issued.token, later) ==
         if later <= issued.payload.expiresAt then Ok(issued.payload) else Err(Expired)
  {
    var issued := CreateUpload(c, secret, dbName, filename, contentType, folderPath, requested, id, now).value;
    VerifySealed(c, secret, issued.payload, "", later);
    assert issued.token + "" == issued.token;
  }

  /** Without a secret nothing is issued and nothing accepted; with one, a token is accepted with the
      payload p exactly when it has two parts, the second is the signature of the first up to
      trailing NULs, the first decodes to p, nothing required is missing from p, and its expiry
      second has not passed. */
  lemma {:induction false} VerifiedIff(c: Crypto, secret: Bytes, payload64: string, provided: string, now: int, p: Payload)
    requires '.' !in payload64
    ensures Verify(c, secret, payload64 + "." + provided, now) == Ok(p) <==>
      && secret != []
      && WithoutTrailingNuls(provided) == WithoutTrailingNuls(Encode(c.mac(secret, payload64)))
      && Decode(payload64).Some? && c.unmarshal(Decode(payload64).value) == Some(p)
      && p.dbName != "" && p.tokenId != "" && p.scope != "" && now <= p.expiresAt
    ensures secret != [] ==> Verify(c, secret, payload64, now) == Err(Malformed)
  {
    Strings.CutAtFirst(payload64, '.', provided);
    Strings.CutAtNone(payload64, '.');
    if secret != [] {
      EqualUpToTrailingNuls(provided, Signature(c, secret, payload64));
    }
  }

  lemma NothingWithoutSecret(
    c: Crypto, dbName: string, filename: string, contentType: string, folderPath: string,
    requested: int, id: string, now: int)
    ensures Create(c, [], dbName, requested, id, now) == Err(NoSecret)
    ensures CreateUpload(c, [], dbName, filename, contentType, folderPath, requested, id, now) == Err(NoSecret)
  {
  }

  /** The signature part of any accepted token is the computed signature, followed by nothing but
      NULs. */
  lemma AcceptedSignature(c: Crypto, secret: Bytes, payload64: string, provided: string, now: int)
    requires '.' !in payload64
    requires Verify(c, secret, payload64 + "." + provided, now).Ok?
    ensures var sig := Encode(c.mac(secret, payload64));
      |sig| <= |provided| && provided == Padded(sig, |provided|)
  {
    var sig := Signature(c, secret, payload64);
    Strings.CutAtFirst(payload64, '.', provided);
    EqualUpToTrailingNuls(provided, sig);
    Base64RoundTrip(c.mac(secret, payload64));
    assert sig == "" || sig[|sig| - 1] in sig;
    TrailingNulsOnly(provided);
  }
}
