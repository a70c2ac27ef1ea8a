/**
  The password gate of auth.js: the password hash (the hexadecimal SHA-256
  digest when Web Crypto is there, a 32-bit string hash otherwise), the
  configured password, the check of a typed password, the cookie that
  remembers a successful login and the decision taken when the page loads.

  The browser is a parameter: the configuration object `window.__APP_CONFIG__`,
  the cookie string `document.cookie`, and `digest`, which stands for
  `crypto.subtle.digest('SHA-256', new TextEncoder().encode(password))` and is
  `None` when Web Crypto is missing or throws.
 */
module Auth {
  import opened Text

  const AuthCookieName := "cuaderno_auth"

  /** The name/value pair the login cookie carries. */
  const AuthPair := AuthCookieName + "=authenticated"

  const MillisPerDay := 24 * 60 * 60 * 1000

  /** One year of 365 days, in milliseconds. */
  const AuthCookieDuration := 365 * MillisPerDay

  // ---------------------------------------------------------------------------
  // 32-bit integers
  // ---------------------------------------------------------------------------

  const Two32 := 0x1_0000_0000
  const Two31 := 0x8000_0000

  predicate IsInt32(x: int)
  {
    -Two31 <= x < Two31
  }

  /** ECMAScript ToInt32: the signed 32-bit integer congruent to `x` modulo 2^32. */
  function ToInt32(x: int): (r: int)
    ensures IsInt32(r)
    ensures (r - x) % Two32 == 0
  {
    var m := x % Two32;
    if m >= Two31 then m - Two32 else m
  }

  /** Two numbers congruent modulo 2^32 have the same ToInt32. */
  lemma ToInt32Congruent(x: int, y: int)
    requires (x - y) % Two32 == 0
    ensures ToInt32(x) == ToInt32(y)
  {
    var k := (x - y) / Two32;
    assert x == y + k * Two32;
    assert x % Two32 == y % Two32;
  }

  // ---------------------------------------------------------------------------
  // UTF-16 code units (`length` and `charCodeAt`)
  // ---------------------------------------------------------------------------

  /** The UTF-16 code units of one character: one below U+10000, a surrogate pair above. */
  function CodeUnits(c: char): (r: seq<int>)
    ensures 1 <= |r| <= 2
    ensures forall i :: 0 <= i < |r| ==> 0 <= r[i] < 0x1_0000
    ensures |r| == 1 <==> (c as int) < 0x1_0000
  {
    var v := c as int;
    if v < 0x1_0000 then [v]
    else [0xD800 + (v - 0x1_0000) / 0x400, 0xDC00 + (v - 0x1_0000) % 0x400]
  }

  /** The string as JavaScript sees it: a sequence of UTF-16 code units. */
  function Utf16(s: string): (r: seq<int>)
    ensures |s| <= |r| <= 2 * |s|
    ensures forall i :: 0 <= i < |r| ==> 0 <= r[i] < 0x1_0000
  {
    if s == [] then [] else Utf16(s[..|s| - 1]) + CodeUnits(s[|s| - 1])
  }

  // ---------------------------------------------------------------------------
  // The fallback hash
  // ---------------------------------------------------------------------------

  /** The hash after the given code units: each step multiplies by 31, adds the code unit and wraps to 32 bits. */
  function StringHash(units: seq<int>): (h: int)
    ensures IsInt32(h)
  {
    if units == [] then 0 else ToInt32(31 * StringHash(units[..|units| - 1]) + units[|units| - 1])
  }

  /**
    `hash = ((hash << 5) - hash) + char; hash = hash & hash`: the shift wraps
    `32 * hash` to 32 bits, the subtraction and addition are exact, and `&`
    wraps the sum again; together this is `31 * hash + char` wrapped once.
   */
  lemma ShiftStep(h: int, c: int)
    requires IsInt32(h) && 0 <= c < 0x1_0000
    ensures ToInt32(ToInt32(h * 32) - h + c) == ToInt32(31 * h + c)
  {
    var s := ToInt32(h * 32);
    var k := (s - h * 32) / Two32;
    assert s - h * 32 == k * Two32;
    assert (s - h + c) - (31 * h + c) == k * Two32;
    ToInt32Congruent(s - h + c, 31 * h + c);
  }

  function Abs(x: int): nat
  {
    if x < 0 then -x else x
  }

  /** The text of the fallback hash: `Math.abs(hash).toString(16)`. */
  function FallbackText(password: string): string
  {
    Hex(Abs(StringHash(Utf16(password))))
  }

  /** The fallback branch of `hashPassword`, step by step over the code units. */
  method FallbackHash(password: string) returns (r: string)
    ensures r == FallbackText(password)
  {
    var units := Utf16(password);
    var hash := 0;
    for i := 0 to |units|
      invariant IsInt32(hash)
      invariant hash == StringHash(units[..i])
    {
      var ch := units[i];
      assert units[..i + 1][..i] == units[..i];
      ShiftStep(hash, ch);
      hash := ToInt32(ToInt32(hash * 32) - hash + ch);
    }
    assert units[..|units|] == units;
    r := Hex(if hash < 0 then -hash else hash);
  }

  function Pow16(k: nat): nat
  {
    if k == 0 then 1 else 16 * Pow16(k - 1)
  }

  /** A number below 16^k has at most k hexadecimal digits. */
  lemma {:induction false} HexLength(n: nat, k: nat)
    requires 1 <= k && n < Pow16(k)
    ensures |Hex(n)| <= k
  {
    if n >= 16 {
      HexLength(n / 16, k - 1);
    }
  }

  /** The fallback text is one to eight lowercase hexadecimal digits whose value is the absolute hash. */
  lemma FallbackTextShape(password: string)
    ensures var r := FallbackText(password);
      1 <= |r| <= 8 && AllLowerHex(r) &&
      HexValue(r) == Abs(StringHash(Utf16(password))) <= Two31
  {
    var n := Abs(StringHash(Utf16(password)));
    assert Pow16(8) == Two32;
    HexLength(n, 8);
    HexRoundTrip(n);
  }

  /** "Aa" and "BB" hash alike: 31 * 65 + 97 == 31 * 66 + 66. */
  lemma FallbackCollision()
    ensures FallbackText("Aa") == FallbackText("BB")
  {
    assert "Aa"[..1] == "A" && "BB"[..1] == "B";
    assert Utf16("Aa") == [65, 97];
    assert Utf16("BB") == [66, 66];
    TwoUnitHash(65, 97);
    TwoUnitHash(66, 66);
  }

  /** Two code units hash to `31 * a + b`, with no wrap-around yet. */
  lemma TwoUnitHash(a: int, b: int)
    requires 0 <= a < 0x1_0000 && 0 <= b < 0x1_0000
    ensures StringHash([a, b]) == 31 * a + b
  {
    assert [a, b][..1] == [a];
    assert [a][..0] == [];
    assert StringHash([a]) == a;
  }

  // ---------------------------------------------------------------------------
  // The digest path
  // ---------------------------------------------------------------------------

  /** One byte of the digest (`Uint8Array` element). */
  newtype Byte = b: int | 0 <= b < 256

  /** `b.toString(16).padStart(2, '0')`. */
  function ByteHex(b: Byte): (r: string)
    ensures |r| == 2 && AllLowerHex(r)
  {
    HexLength(b as int, 2);
    PadStart(Hex(b as int), 2, '0')
  }

  /** The digest as lowercase hexadecimal, two digits per byte. */
  function DigestHex(bytes: seq<Byte>): (r: string)
    ensures |r| == 2 * |bytes|
    ensures AllLowerHex(r)
  {
    if bytes == [] then []
    else
      var h, t := ByteHex(bytes[0]), DigestHex(bytes[1..]);
      AllLowerHexConcat(h, t);
      h + t
  }

  predicate AllLowerHex(s: string)
  {
    forall i :: 0 <= i < |s| ==> IsLowerHex(s[i])
  }

  lemma AllLowerHexConcat(a: string, b: string)
    requires AllLowerHex(a) && AllLowerHex(b)
    ensures AllLowerHex(a + b)
  {
    forall i | 0 <= i < |a + b|
      ensures IsLowerHex((a + b)[i])
    {
      if i >= |a| {
        assert (a + b)[i] == b[i - |a|];
      }
    }
  }

  /** The two digits of a byte read back as the byte. */
  lemma ByteHexValue(b: Byte)
    ensures HexValue(ByteHex(b)) == b as int
  {
    var h := Hex(b as int);
    HexLength(b as int, 2);
    HexRoundTrip(b as int);
    if |h| == 1 {
      var r := ByteHex(b);
      assert r == ['0'] + h;
      assert r[..1] == ['0'];
    }
  }

  /** Different digests give different texts: the digest path compares the digests themselves. */
  lemma {:induction false} DigestHexInjective(a: seq<Byte>, b: seq<Byte>)
    requires DigestHex(a) == DigestHex(b)
    ensures a == b
  {
    if a != [] {
      var ta, tb := a[1..], b[1..];
      DigestHexCons(a);
      DigestHexCons(b);
      ByteHexInjective(a[0], b[0]);
      DigestHexInjective(ta, tb);
      assert a == [a[0]] + ta && b == [b[0]] + tb;
    }
  }

  lemma ByteHexInjective(x: Byte, y: Byte)
    requires ByteHex(x) == ByteHex(y)
    ensures x == y
  {
    ByteHexValue(x);
    ByteHexValue(y);
  }

  lemma DigestHexCons(bytes: seq<Byte>)
    requires bytes != []
    ensures DigestHex(bytes)[..2] == ByteHex(bytes[0])
    ensures DigestHex(bytes)[2..] == DigestHex(bytes[1..])
  {
    var r := DigestHex(bytes);
    assert r == ByteHex(bytes[0]) + DigestHex(bytes[1..]);
  }

  /** What `hashPassword` resolves to, given what the digest gives for the password. */
  function PasswordHash(password: string, digest: string -> Option<seq<Byte>>): string
  {
    match digest(password)
    case Some(bytes) => DigestHex(bytes)
    case None => FallbackText(password)
  }

  /** `hashPassword`: the digest in hexadecimal when Web Crypto answers, the fallback hash otherwise. */
  method HashPassword(password: string, digest: string -> Option<seq<Byte>>) returns (r: string)
    ensures r == PasswordHash(password, digest)
    ensures digest(password).Some? ==> |r| == 2 * |digest(password).value|
    ensures digest(password).None? ==> 1 <= |r| <= 8
    ensures AllLowerHex(r)
  {
    var bytes := digest(password);
    if bytes.Some? {
      r := DigestHex(bytes.value);
    } else {
      r := FallbackHash(password);
      FallbackTextShape(password);
    }
  }

  // ---------------------------------------------------------------------------
  // Configuration, validation, cookie and access
  // ---------------------------------------------------------------------------

  /** `window.__APP_CONFIG__`, with its `PASSWORD` entry when it has one. */
  datatype AppConfig = AppConfig(password: Option<string>)

  /** `config?.PASSWORD || ''`. */
  function ConfiguredPassword(config: Option<AppConfig>): (r: string)
    ensures r == "" <==> config.None? || config.value.password.None? || config.value.password.value == ""
    ensures r != "" ==> r == config.value.password.value
  {
    if config.Some? && config.value.password.Some? then config.value.password.value else ""
  }

  /** The outcome `validatePassword` promises. */
  predicate Validates(config: Option<AppConfig>, userPassword: string, digest: string -> Option<seq<Byte>>)
  {
    var configured := ConfiguredPassword(config);
    configured != "" && PasswordHash(userPassword, digest) == PasswordHash(configured, digest)
  }

  /** `validatePassword`: refuse when no password is configured, else compare the two hashes. */
  method ValidatePassword(config: Option<AppConfig>, userPassword: string, digest: string -> Option<seq<Byte>>)
    returns (ok: bool)
    ensures ok <==> Validates(config, userPassword, digest)
  {
    var configured := ConfiguredPassword(config);
    if configured == "" {
      return false;
    }
    var userHash := HashPassword(userPassword, digest);
    var configHash := HashPassword(configured, digest);
    ok := userHash == configHash;
  }

  /** The configured password always opens the gate. */
  lemma ConfiguredPasswordValidates(config: Option<AppConfig>, digest: string -> Option<seq<Byte>>)
    requires ConfiguredPassword(config) != ""
    ensures Validates(config, ConfiguredPassword(config), digest)
  {
  }

  /** With no password configured, no password opens the gate. */
  lemma NoPasswordNeverValidates(config: Option<AppConfig>, userPassword: string, digest: string -> Option<seq<Byte>>)
    requires ConfiguredPassword(config) == ""
    ensures !Validates(config, userPassword, digest)
  {
  }

  /** When both hashes come from the digest, a password validates exactly when its digest is the configured one's. */
  lemma DigestValidatesIff(config: Option<AppConfig>, userPassword: string, digest: string -> Option<seq<Byte>>)
    requires ConfiguredPassword(config) != ""
    requires digest(userPassword).Some? && digest(ConfiguredPassword(config)).Some?
    ensures Validates(config, userPassword, digest) <==> digest(userPassword) == digest(ConfiguredPassword(config))
  {
    var configured := ConfiguredPassword(config);
    if Validates(config, userPassword, digest) {
      DigestHexInjective(digest(userPassword).value, digest(configured).value);
    }
  }

  /** Without Web Crypto, "Aa" opens a gate whose password is "BB". */
  lemma FallbackAcceptsCollision(digest: string -> Option<seq<Byte>>)
    requires digest("Aa").None? && digest("BB").None?
    ensures Validates(Some(AppConfig(Some("BB"))), "Aa", digest)
  {
    FallbackCollision();
  }

  /** `isAuthenticated`: some `;`-separated piece of the cookie string, trimmed, starts with the login pair. */
  function IsAuthenticated(cookie: string): (r: bool)
    ensures r <==> exists p :: p in Split(cookie, ';') && StartsWith(Trim(p), AuthPair)
  {
    var pieces := Split(cookie, ';');
    var r := AnyAuthPiece(pieces);
    assert r ==> exists p :: p in pieces && StartsWith(Trim(p), AuthPair) by {
      if r {
        var i :| 0 <= i < |pieces| && StartsWith(Trim(pieces[i]), AuthPair);
        assert pieces[i] in pieces;
      }
    }
    r
  }

  /** `pieces.some(p => p.trim().startsWith(AuthPair))`. */
  function AnyAuthPiece(pieces: seq<string>): (r: bool)
    ensures r <==> exists i :: 0 <= i < |pieces| && StartsWith(Trim(pieces[i]), AuthPair)
  {
    if pieces == [] then false
    else StartsWith(Trim(pieces[0]), AuthPair) || AnyAuthPiece(pieces[1..])
  }

  /** A cookie string made of pieces is authenticated exactly when one of the pieces, trimmed, starts with the pair. */
  lemma CookieJarIff(pieces: seq<string>)
    requires |pieces| >= 1 && forall i :: 0 <= i < |pieces| ==> ';' !in pieces[i]
    ensures IsAuthenticated(Join(pieces, ';')) <==> exists p :: p in pieces && StartsWith(Trim(p), AuthPair)
  {
    SplitJoin(pieces, ';');
  }

  /** `setAuthCookie`: the assignment written to `document.cookie`; `expires` is the UTC text of the expiry. */
  function AuthCookieAssignment(expires: string): (r: string)
    ensures Split(r, ';')[0] == AuthPair
  {
    var rest := " expires=" + expires + "; path=/; SameSite=Strict";
    SplitCons(AuthPair, ';', rest);
    AuthPair + ";" + rest
  }

  /** The expiry `setAuthCookie` sets: a whole year of days after `now`. */
  function CookieExpiry(now: int): (r: int)
    ensures r > now && (r - now) % MillisPerDay == 0 && (r - now) / MillisPerDay == 365
  {
    now + AuthCookieDuration
  }

  /** Once the pair the login writes is among the cookies, the cookie check passes, wherever it stands. */
  lemma LoginPairAuthenticates(pieces: seq<string>, i: nat)
    requires i < |pieces| && forall j :: 0 <= j < |pieces| ==> ';' !in pieces[j]
    requires Trim(pieces[i]) == AuthPair
    ensures IsAuthenticated(Join(pieces, ';'))
  {
    CookieJarIff(pieces);
    assert AuthPair[..|AuthPair|] == AuthPair;
    assert pieces[i] in pieces && StartsWith(Trim(pieces[i]), AuthPair);
  }

  /** What logout leaves, `cuaderno_auth=` with no value, does not pass the check. */
  lemma LoggedOutNotAuthenticated()
    ensures !IsAuthenticated(AuthCookieName + "=")
  {
    var s := AuthCookieName + "=";
    assert |s| == 14 && |AuthPair| == 27;
    assert forall i :: 0 <= i < |s| ==> s[i] != ';';
    assert Split(s, ';') == [s];
    assert |Trim(s)| < |AuthPair|;
  }

  /** `initAuth`: let the application start when no password is configured or the login cookie is there. */
  function InitAuth(config: Option<AppConfig>, cookie: string): (r: bool)
    ensures r <==> ConfiguredPassword(config) == "" || IsAuthenticated(cookie)
  {
    if ConfiguredPassword(config) == "" then true
    else if IsAuthenticated(cookie) then true
    else false
  }

  /** After a successful login the next load goes straight in, whatever other cookies there are. */
  lemma LoginThenAccess(config: Option<AppConfig>, pieces: seq<string>, i: nat)
    requires i < |pieces| && forall j :: 0 <= j < |pieces| ==> ';' !in pieces[j]
    requires Trim(pieces[i]) == AuthPair
    ensures InitAuth(config, Join(pieces, ';'))
  {
    LoginPairAuthenticates(pieces, i);
  }

  /** With a password configured and no login cookie, the gate stays closed. */
  lemma NoCookieNoAccess(config: Option<AppConfig>, cookie: string)
    requires ConfiguredPassword(config) != ""
    requires forall p :: p in Split(cookie, ';') ==> !StartsWith(Trim(p), AuthPair)
    ensures !InitAuth(config, cookie)
  {
  }
}
