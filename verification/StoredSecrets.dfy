/** The desktop's stored password hash and salt: hex or base64 text, and the check of a password
    against them. Base64 is that of section 4 of RFC 4648. */
module StoredSecrets {
  import opened Results
  import opened Bytes
  import opened Text
  import opened Hex

  // --- base64 ---------------------------------------------------------------

  predicate IsBase64Char(c: char) {
    'A' <= c <= 'Z' || 'a' <= c <= 'z' || '0' <= c <= '9' || c == '+' || c == '/'
  }

  type Sextet = x: int | 0 <= x < 64

  function Base64Char(v: Sextet): (c: char)
    ensures IsBase64Char(c)
  {
    if v < 26 then ('A' as int + v) as char
    else if v < 52 then ('a' as int + v - 26) as char
    else if v < 62 then ('0' as int + v - 52) as char
    else if v == 62 then '+' else '/'
  }

  function Base64Value(c: char): (v: Sextet)
    requires IsBase64Char(c)
    ensures Base64Char(v) == c
  {
    if 'A' <= c <= 'Z' then c as int - 'A' as int
    else if 'a' <= c <= 'z' then c as int - 'a' as int + 26
    else if '0' <= c <= '9' then c as int - '0' as int + 52
    else if c == '+' then 62 else 63
  }

  function Sextets(b: seq<Byte>): (v: seq<Sextet>)
    ensures |v| % 4 != 1
    ensures |v| == (4 * |b| + 2) / 3
  {
    if b == [] then []
    else if |b| == 1 then [b[0] / 4, b[0] % 4 * 16]
    else if |b| == 2 then [b[0] / 4, b[0] % 4 * 16 + b[1] / 16, b[1] % 16 * 4]
    else [b[0] / 4, b[0] % 4 * 16 + b[1] / 16, b[1] % 16 * 4 + b[2] / 64, b[2] % 64] + Sextets(b[3..])
  }

  function First(a: int, b: int): Byte
    requires 0 <= a < 64 && 0 <= b < 64
  {
    a * 4 + b / 16
  }

  function Second(a: int, b: int): Byte
    requires 0 <= a < 64 && 0 <= b < 64
  {
    a % 16 * 16 + b / 4
  }

  function Third(a: int, b: int): Byte
    requires 0 <= a < 64 && 0 <= b < 64
  {
    a % 4 * 64 + b
  }

  /** Whole bytes from groups of six bits; bits left over are dropped. */
  function Octets(v: seq<Sextet>): (b: seq<Byte>)
    requires |v| % 4 != 1
    ensures |b| == 3 * |v| / 4
  {
    if v == [] then []
    else if |v| == 2 then [First(v[0], v[1])]
    else if |v| == 3 then [First(v[0], v[1]), Second(v[1], v[2])]
    else [First(v[0], v[1]), Second(v[1], v[2]), Third(v[2], v[3])] + Octets(v[4..])
  }

  lemma RegroupedBits(a: Byte, b: Byte, c: Byte)
    ensures First(a / 4, a % 4 * 16 + b / 16) == a
    ensures Second(a % 4 * 16 + b / 16, b % 16 * 4 + c / 64) == b
    ensures Third(b % 16 * 4 + c / 64, c % 64) == c
  {
  }

  lemma {:induction false} OctetsOfSextets(b: seq<Byte>)
    ensures Octets(Sextets(b)) == b
  {
    hide First, Second, Third;
    if |b| == 1 {
      RegroupedBits(b[0], 0, 0);
    } else if |b| == 2 {
      RegroupedBits(b[0], b[1], 0);
    } else if |b| > 2 {
      RegroupedBits(b[0], b[1], b[2]);
      OctetsOfSextets(b[3..]);
      assert Sextets(b)[4..] == Sextets(b[3..]);
      assert b == [b[0], b[1], b[2]] + b[3..];
    }
  }

  function CharsOf(v: seq<Sextet>): (s: string)
    ensures |s| == |v|
    ensures forall i :: 0 <= i < |s| ==> s[i] == Base64Char(v[i])
  {
    seq(|v|, i requires 0 <= i < |v| => Base64Char(v[i]))
  }

  predicate AllBase64(s: string) {
    forall i :: 0 <= i < |s| ==> IsBase64Char(s[i])
  }

  function ValuesOf(s: string): (v: seq<Sextet>)
    requires AllBase64(s)
    ensures |v| == |s|
    ensures forall i :: 0 <= i < |s| ==> v[i] == Base64Value(s[i])
  {
    seq(|s|, i requires 0 <= i < |s| => Base64Value(s[i]))
  }

  lemma Base64Digit(v: Sextet)
    ensures Base64Value(Base64Char(v)) == v
  {
  }

  /** The 64 digits in their order. */
  lemma Base64Alphabet(v: Sextet)
    ensures v < 26 ==> Base64Char(v) == CAPITALS[v]
    ensures 26 <= v < 52 ==> Base64Char(v) == SMALL[v - 26]
    ensures 52 <= v ==> Base64Char(v) == "0123456789+/"[v - 52]
  {
  }

  function Padding(n: nat): string {
    if n % 3 == 1 then "==" else if n % 3 == 2 then "=" else ""
  }

  /** What `btoa` writes for a byte string. */
  function Base64(b: seq<Byte>): string {
    CharsOf(Sextets(b)) + Padding(|b|)
  }

  function StripOne(s: string): (r: string)
    ensures r <= s && forall i :: |r| <= i < |s| ==> s[i] == '='
  {
    if s != [] && s[|s| - 1] == '=' then s[..|s| - 1] else s
  }

  /** Drops at most two trailing padding signs. */
  function StripPadding(s: string): string {
    StripOne(StripOne(s))
  }

  predicate AsciiSpace(c: char) {
    c == ' ' || c == '\t' || c == '\n' || c == '\r' || c == '\U{000C}'
  }

  function WithoutAsciiSpace(s: string): string {
    if s == [] then [] else (if AsciiSpace(s[0]) then [] else [s[0]]) + WithoutAsciiSpace(s[1..])
  }

  /** The browser's `atob`: spaces are dropped, padding only counts in whole groups of four, and
      anything else outside the alphabet is an error. */
  function Atob(s: string): Option<seq<Byte>> {
    var dense := WithoutAsciiSpace(s);
    var data := if |dense| % 4 == 0 then StripPadding(dense) else dense;
    if |data| % 4 == 1 || !AllBase64(data) then None else Some(Octets(ValuesOf(data)))
  }

  // --- which text is hex and which is base64 --------------------------------

  function NormalizeHex(s: string): string {
    Lower(Trim(s, JsSpace))
  }

  predicate IsValidHex(s: string) {
    var h := NormalizeHex(s);
    h != [] && |h| % 2 == 0 && AllHex(h)
  }

  /** Whole groups of four: at least one alphabet character, then at most two padding signs. */
  predicate IsValidBase64(s: string) {
    var t := Trim(s, JsSpace);
    && t != [] && |t| % 4 == 0
    && StripPadding(t) != [] && AllBase64(StripPadding(t))
    && Atob(t).Some?
  }

  datatype SecretFault = ProfileCorrupted

  function DecodeStoredBytes(s: string): Result<seq<Byte>, SecretFault> {
    if IsValidHex(s) then Ok(FromHex(NormalizeHex(s)))
    else if IsValidBase64(s) then
      match Atob(Trim(s, JsSpace))
      case Some(bytes) => Ok(bytes)
      case None => Err(ProfileCorrupted)
    else Err(ProfileCorrupted)
  }

  // --- round trips ----------------------------------------------------------

  lemma HexIsItself(b: seq<Byte>)
    ensures NormalizeHex(ToHex(b)) == ToHex(b)
  {
    HexIsLowerAndTrimmed(ToHex(b), JsSpace);
  }

  /** Hex text of a non-empty byte string decodes to it. */
  lemma HexSecretRoundTrip(b: seq<Byte>)
    requires b != []
    ensures DecodeStoredBytes(ToHex(b)) == Ok(b)
  {
    hide ToHex, FromHex, NormalizeHex, IsValidBase64, AllHex;
    HexIsItself(b);
    assert IsValidHex(ToHex(b));
    HexRoundTrip(b);
  }

  /** A text is hex for the bytes b exactly when, trimmed and in small letters, it is their hex. */
  lemma HexTextExactly(s: string, b: seq<Byte>)
    ensures IsValidHex(s) && DecodeStoredBytes(s) == Ok(b) <==> b != [] && Lower(Trim(s, JsSpace)) == ToHex(b)
  {
    hide Lower, Trim, IsValidBase64, ToHex, FromHex;
    var h := NormalizeHex(s);
    HexRoundTrip(b);
    if IsValidHex(s) {
      HexTextRoundTrip(h);
    }
  }

  /** A text is base64 exactly when, trimmed, it is at least one character of the alphabet with at most
      two padding signs after it, in whole groups of four. */
  lemma Base64TextExactly(s: string)
    ensures IsValidBase64(s) <==> exists data: string, padding: string :: Base64Parts(Trim(s, JsSpace), data, padding)
  {
    var t := Trim(s, JsSpace);
    hide Base64Parts, AllBase64;
    if IsValidBase64(s) {
      ValidHasParts(t);
    }
    if data: string, padding: string :| Base64Parts(t, data, padding) {
      PartsAreValid(t, data, padding);
    }
  }

  lemma ValidHasParts(t: string)
    requires t != [] && |t| % 4 == 0 && StripPadding(t) != [] && AllBase64(StripPadding(t))
    ensures exists padding: string :: Base64Parts(t, StripPadding(t), padding)
  {
    hide IsBase64Char;
    var data := StripPadding(t);
    assert t == data + t[|data|..];
    assert Base64Parts(t, data, t[|data|..]);
  }

  /** What is decoded of a text without spaces. */
  lemma AtobReads(s: string, data: string)
    requires WithoutAsciiSpace(s) == s && data == if |s| % 4 == 0 then StripPadding(s) else s
    requires |data| % 4 != 1 && AllBase64(data)
    ensures Atob(s) == Some(Octets(ValuesOf(data)))
  {
    hide WithoutAsciiSpace, StripPadding, AllBase64, Octets, ValuesOf;
  }

  lemma PartsAreValid(t: string, data: string, padding: string)
    requires Base64Parts(t, data, padding)
    ensures t != [] && |t| % 4 == 0
    ensures StripPadding(t) == data && data != [] && AllBase64(data) && Atob(t).Some?
  {
    StripsPadding(data);
    assert data + "" == data;
    PartsAreDense(t, data, padding);
    assert |t| == |data| + |padding| && |padding| <= 2;
    hide *;
    GroupsOfFour(|data|, |padding|);
    AtobReads(t, data);
  }

  lemma GroupsOfFour(n: nat, padding: nat)
    requires (n + padding) % 4 == 0 && padding <= 2
    ensures n % 4 != 1
  {
  }

  ghost predicate Base64Parts(t: string, data: string, padding: string) {
    && t == data + padding && |t| % 4 == 0
    && data != [] && AllBase64(data)
    && (padding == "" || padding == "=" || padding == "==")
  }

  lemma PartsAreDense(t: string, data: string, padding: string)
    requires Base64Parts(t, data, padding)
    ensures WithoutAsciiSpace(t) == t
  {
    NoSpaceToDrop(t);
  }

  /** The browser's decoding ignores spaces anywhere and padding left out; one character over a whole
      number of groups, or one from outside the alphabet, is an error. */
  lemma AtobIgnores(s: string, b: seq<Byte>, i: nat)
    ensures Atob(WithoutAsciiSpace(s)) == Atob(s)
    ensures |b| % 3 != 0 ==> Atob(CharsOf(Sextets(b))) == Some(b)
    ensures var dense := WithoutAsciiSpace(s);
            i < |dense| && !IsBase64Char(dense[i]) && (dense[i] != '=' || |dense| % 4 != 0) ==> Atob(s).None?
    ensures |WithoutAsciiSpace(s)| % 4 == 1 ==> Atob(s).None?
  {
    hide Sextets, CharsOf, Octets, ValuesOf, WithoutAsciiSpace, IsBase64Char;
    DropsOnce(s);
    UnpaddedIsRead(b);
    assert StripPadding(WithoutAsciiSpace(s)) <= WithoutAsciiSpace(s);
  }

  /** The five spaces are dropped, each where it stands, and nothing else is. */
  lemma {:induction false} DropsSpaces(a: string, b: string, c: char)
    ensures WithoutAsciiSpace(a + b) == WithoutAsciiSpace(a) + WithoutAsciiSpace(b)
    ensures WithoutAsciiSpace([c]) == if c in {' ', '\t', '\n', '\r', '\U{000C}'} then [] else [c]
  {
    assert [c][1..] == [];
    if a == [] {
      assert a + b == b;
    } else {
      assert (a + b)[1..] == a[1..] + b;
      DropsSpaces(a[1..], b, c);
      var first := if AsciiSpace(a[0]) then [] else [a[0]];
      hide AsciiSpace;
      assert first + (WithoutAsciiSpace(a[1..]) + WithoutAsciiSpace(b)) == (first + WithoutAsciiSpace(a[1..])) + WithoutAsciiSpace(b);
    }
  }

  lemma {:induction false} DropsOnce(s: string)
    ensures WithoutAsciiSpace(WithoutAsciiSpace(s)) == WithoutAsciiSpace(s)
  {
    if s != [] {
      DropsOnce(s[1..]);
      var rest := WithoutAsciiSpace(s[1..]);
      assert ([s[0]] + rest)[1..] == rest && [] + rest == rest;
    }
  }

  lemma UnpaddedIsRead(b: seq<Byte>)
    ensures |b| % 3 != 0 ==> Atob(CharsOf(Sextets(b))) == Some(b)
  {
    hide *;
    var data := CharsOf(Sextets(b));
    ValuesOfChars(Sextets(b));
    CharsAreDense(Sextets(b));
    OctetsOfSextets(b);
    if |b| % 3 != 0 {
      UnpaddedLength(|b|);
      AtobReads(data, data);
    }
  }

  lemma CharsAreDense(v: seq<Sextet>)
    ensures WithoutAsciiSpace(CharsOf(v)) == CharsOf(v)
  {
    NoSpaceToDrop(CharsOf(v));
  }

  lemma UnpaddedLength(n: nat)
    requires n % 3 != 0
    ensures (4 * n + 2) / 3 % 4 != 0
  {
    PaddedLength(n);
  }

  lemma {:induction false} NoSpaceToDrop(s: string)
    requires forall i :: 0 <= i < |s| ==> !AsciiSpace(s[i])
    ensures WithoutAsciiSpace(s) == s
  {
    if s != [] {
      NoSpaceToDrop(s[1..]);
    }
  }

  lemma StripsPadding(data: string)
    requires AllBase64(data)
    ensures StripPadding(data) == data && StripPadding(data + "=") == data && StripPadding(data + "==") == data
  {
    var once := data + "=";
    assert once[..|data|] == data;
    assert data + "==" == once + "=";
    assert (once + "=")[..|once|] == once;
    assert StripOne(data) == data && StripOne(once) == data && StripOne(once + "=") == once;
  }

  lemma PaddedLength(n: nat)
    ensures var length := (4 * n + 2) / 3 + |Padding(n)|;
            length % 4 == 0 && length == (n + 2) / 3 * 4
    ensures Padding(n) == "" || Padding(n) == "=" || Padding(n) == "=="
  {
    var q := n / 3;
    if n == 3 * q {
      assert (4 * n + 2) / 3 == 4 * q && (n + 2) / 3 == q;
    } else if n == 3 * q + 1 {
      assert (4 * n + 2) / 3 == 4 * q + 2 && (n + 2) / 3 == q + 1;
    } else {
      assert (4 * n + 2) / 3 == 4 * q + 3 && (n + 2) / 3 == q + 1;
    }
  }

  lemma Base64Shape(b: seq<Byte>)
    ensures var s := Base64(b);
            && |s| % 4 == 0 && |s| == (|b| + 2) / 3 * 4
            && StripPadding(s) == CharsOf(Sextets(b))
            && forall i :: 0 <= i < |s| ==> IsBase64Char(s[i]) || s[i] == '='
  {
    hide Sextets, Base64Char, CharsOf, StripPadding, Padding;
    var data := CharsOf(Sextets(b));
    StripsPadding(data);
    PaddedLength(|b|);
    assert data + "" == data;
  }

  lemma ValuesOfChars(v: seq<Sextet>)
    ensures AllBase64(CharsOf(v)) && ValuesOf(CharsOf(v)) == v
  {
    hide Base64Char, Base64Value;
    forall i | 0 <= i < |v| ensures ValuesOf(CharsOf(v))[i] == v[i] {
      Base64Digit(v[i]);
    }
  }

  lemma Base64IsDense(b: seq<Byte>)
    ensures Trim(Base64(b), JsSpace) == Base64(b) && WithoutAsciiSpace(Base64(b)) == Base64(b)
  {
    hide Base64, Sextets, CharsOf;
    Base64Shape(b);
    TrimUnspaced(Base64(b), JsSpace);
    NoSpaceToDrop(Base64(b));
  }

  lemma AtobOfBase64(b: seq<Byte>)
    ensures Trim(Base64(b), JsSpace) == Base64(b)
    ensures Atob(Base64(b)) == Some(b)
  {
    hide Base64, Sextets, CharsOf, ValuesOf, Octets, StripPadding, WithoutAsciiSpace, Trim;
    Base64Shape(b);
    Base64IsDense(b);
    ValuesOfChars(Sextets(b));
    OctetsOfSextets(b);
  }

  /** For bytes there are, base64 text is valid as such. */
  lemma Base64IsValid(b: seq<Byte>)
    requires b != []
    ensures IsValidBase64(Base64(b))
  {
    hide Base64, Sextets, CharsOf, Atob, StripPadding, Trim;
    Base64Shape(b);
    AtobOfBase64(b);
    ValuesOfChars(Sextets(b));
  }

  lemma PaddingIsNotHex(b: seq<Byte>)
    requires |b| % 3 != 0
    ensures !IsValidHex(Base64(b))
  {
    var s := Base64(b);
    assert s[|s| - 1] == '=';
    hide Base64, Sextets, CharsOf, Trim;
    Base64IsDense(b);
    assert NormalizeHex(s)[|s| - 1] == '=';
  }

  lemma EmptyIsInvalid()
    ensures DecodeStoredBytes("").Err?
  {
  }

  /** Base64 text of b decodes to b exactly when b is not empty and the text does not happen to
      read as hex as well. */
  lemma Base64SecretRoundTrip(b: seq<Byte>)
    ensures DecodeStoredBytes(Base64(b)) == Ok(b) <==> b != [] && !IsValidHex(Base64(b))
  {
    hide Base64, Sextets, CharsOf, Atob, StripPadding, IsValidBase64, Trim;
    AtobOfBase64(b);
    Base64Shape(b);
    var s := Base64(b);
    if b == [] {
      assert s == [];
      EmptyIsInvalid();
    } else {
      Base64IsValid(b);
      if IsValidHex(s) {
        assert |b| % 3 == 0 by {
          if |b| % 3 != 0 { PaddingIsNotHex(b); }
        }
        assert |FromHex(NormalizeHex(s))| == |s| / 2 != |b|;
      }
    }
  }

  /** Padding keeps base64 from reading as hex, so every length that is not a multiple of three,
      the 32 bytes of a derived key among them, is safe. */
  lemma PaddedBase64IsSafe(b: seq<Byte>)
    requires |b| % 3 != 0
    ensures DecodeStoredBytes(Base64(b)) == Ok(b)
  {
    hide Base64, DecodeStoredBytes, IsValidHex;
    PaddingIsNotHex(b);
    Base64SecretRoundTrip(b);
  }

  lemma IllustratedSextets()
    ensures Sextets([0x14, 0xfb, 0x9c, 0x03, 0xd9, 0x7e]) == [5, 15, 46, 28, 0, 61, 37, 62]
    ensures Sextets([0x14, 0xfb, 0x9c, 0x03]) == [5, 15, 46, 28, 0, 48]
  {
    var six: seq<Byte> := [0x14, 0xfb, 0x9c, 0x03, 0xd9, 0x7e];
    assert six[3..] == [0x03, 0xd9, 0x7e] && six[3..][3..] == [];
    assert Sextets(six[3..]) == [0, 61, 37, 62];
    var four: seq<Byte> := [0x14, 0xfb, 0x9c, 0x03];
    assert four[3..] == [0x03];
  }

  /** Two of the illustrations in section 9 of RFC 4648. */
  lemma Rfc4648Examples()
    ensures Base64([0x14, 0xfb, 0x9c, 0x03, 0xd9, 0x7e]) == "FPucA9l+"
    ensures Base64([0x14, 0xfb, 0x9c, 0x03]) == "FPucAw=="
  {
    IllustratedSextets();
    hide Sextets;
  }

  lemma ThreeZeros()
    ensures Base64([0, 0, 0]) == "AAAA"
  {
    var b: seq<Byte> := [0, 0, 0];
    assert b[3..] == [];
    assert Sextets(b) == [0, 0, 0, 0];
  }

  /** Three zero bytes are written "AAAA", which is read back as two bytes of hex. */
  lemma UnpaddedBase64CanReadAsHex()
    ensures DecodeStoredBytes(Base64([0, 0, 0])) == Ok([0xAA, 0xAA])
  {
    hide Base64, IsValidBase64, Atob;
    ThreeZeros();
    var s := "AAAA";
    TrimUnspaced(s, JsSpace);
    var h := "aaaa";
    assert NormalizeHex(s) == h;
    assert h[0] == 'a' && h[1] == 'a' && h[2] == 'a' && h[3] == 'a';
    assert h[..2] == "aa" && h[..2][..0] == "";
    assert FromHex(h[..2]) == [PairValue('a', 'a')];
    assert FromHex(h) == [PairValue('a', 'a'), PairValue('a', 'a')];
  }

  // --- checking a password --------------------------------------------------

  datatype Secret = Secret(passwordHash: string, salt: string)

  /** PBKDF2 as a black box from a password and a salt to bytes. */
  type Kdf = (string, seq<Byte>) -> seq<Byte>

  function EncodeDerived(derived: seq<Byte>, stored: string): Result<string, SecretFault> {
    if IsValidHex(stored) then Ok(ToHex(derived))
    else if IsValidBase64(stored) then Ok(Base64(derived))
    else Err(ProfileCorrupted)
  }

  function VerifyPassword(kdf: Kdf, password: string, secret: Secret): Result<bool, SecretFault> {
    match DecodeStoredBytes(secret.salt)
    case Err(e) => Err(e)
    case Ok(salt) =>
      match EncodeDerived(kdf(password, salt), secret.passwordHash)
      case Err(e) => Err(e)
      case Ok(computed) =>
        Ok(computed == if IsValidHex(secret.passwordHash) then NormalizeHex(secret.passwordHash)
                       else Trim(secret.passwordHash, JsSpace))
  }

  function CreateSecret(kdf: Kdf, password: string, salt: seq<Byte>): Secret {
    Secret(ToHex(kdf(password, salt)), ToHex(salt))
  }

  /** A stored hex hash, in any case and with spaces around it, accepts a password exactly when
      the bytes it decodes to are the derived bytes. */
  lemma HexHashAcceptsItsBytes(kdf: Kdf, password: string, secret: Secret, salt: seq<Byte>)
    requires DecodeStoredBytes(secret.salt) == Ok(salt) && IsValidHex(secret.passwordHash)
    ensures VerifyPassword(kdf, password, secret) ==
              Ok(DecodeStoredBytes(secret.passwordHash) == Ok(kdf(password, salt)))
  {
    var h := NormalizeHex(secret.passwordHash);
    HexTextRoundTrip(h);
    HexRoundTrip(kdf(password, salt));
  }

  /** A stored base64 hash accepts exactly when its bytes are the derived bytes and its text is
      the one that encodes them: no stray bits after the last byte, no missing padding. */
  lemma Base64HashAcceptsItsBytes(kdf: Kdf, password: string, secret: Secret)
    requires DecodeStoredBytes(secret.salt).Ok?
    ensures var derived := kdf(password, DecodeStoredBytes(secret.salt).value);
            var stored := DecodeStoredBytes(secret.passwordHash);
            !IsValidHex(secret.passwordHash) && IsValidBase64(secret.passwordHash) ==>
              stored.Ok? && VerifyPassword(kdf, password, secret) ==
                Ok(stored.value == derived && Trim(secret.passwordHash, JsSpace) == Base64(stored.value))
  {
    hide Atob, Base64, FromHex, ToHex;
    AtobOfBase64(kdf(password, DecodeStoredBytes(secret.salt).value));
  }

  /** A secret made from one password accepts another exactly when both derive the same bytes. */
  lemma CreatedSecretVerifies(kdf: Kdf, password: string, attempt: string, salt: seq<Byte>)
    requires salt != [] && kdf(password, salt) != []
    ensures VerifyPassword(kdf, attempt, CreateSecret(kdf, password, salt)) == Ok(kdf(attempt, salt) == kdf(password, salt))
  {
    hide VerifyPassword, DecodeStoredBytes, ToHex;
    var secret := CreateSecret(kdf, password, salt);
    HexSecretRoundTrip(salt);
    HexSecretRoundTrip(kdf(password, salt));
    HexIsItself(kdf(password, salt));
    HexHashAcceptsItsBytes(kdf, attempt, secret, salt);
  }

  /** Nothing but hex or base64 text is decoded, and a check fails when the salt or the hash is neither. */
  lemma NeitherIsCorrupted(kdf: Kdf, password: string, secret: Secret, s: string)
    ensures DecodeStoredBytes(s).Err? <==> !IsValidHex(s) && !IsValidBase64(s)
    ensures VerifyPassword(kdf, password, secret).Err? <==>
              DecodeStoredBytes(secret.salt).Err? || DecodeStoredBytes(secret.passwordHash).Err?
  {
    hide IsValidHex, FromHex, ToHex, Base64, Atob, NormalizeHex, Trim;
  }

  // --- the loops ------------------------------------------------------------

  lemma NextPair(s: string, i: nat)
    requires AllHex(s) && i % 2 == 0 && i + 2 <= |s|
    ensures FromHex(s[..i + 2]) == FromHex(s[..i]) + [PairValue(s[i], s[i + 1])]
  {
    assert s[..i + 2][..i] == s[..i];
  }

  method HexToBytes(value: string) returns (r: Result<seq<Byte>, SecretFault>)
    ensures r == if IsValidHex(value) then Ok(FromHex(NormalizeHex(value))) else Err(ProfileCorrupted)
  {
    hide NormalizeHex, FromHex, PairValue, IsHexChar;
    var normalized := NormalizeHex(value);
    if normalized == [] || |normalized| % 2 != 0 || !AllHex(normalized) {
      return Err(ProfileCorrupted);
    }
    var bytes := new Byte[|normalized| / 2];
    var index := 0;
    while index < |normalized|
      invariant 0 <= index <= |normalized| && index % 2 == 0
      invariant bytes[..index / 2] == FromHex(normalized[..index])
    {
      NextPair(normalized, index);
      bytes[index / 2] := PairValue(normalized[index], normalized[index + 1]);
      assert bytes[..index / 2 + 1] == bytes[..index / 2] + [bytes[index / 2]];
      index := index + 2;
    }
    assert normalized[..index] == normalized && bytes[..index / 2] == bytes[..];
    return Ok(bytes[..]);
  }

  /** A binary string: one character per byte. */
  function CodesOf(binary: string): seq<Byte>
    requires forall i :: 0 <= i < |binary| ==> binary[i] as int < 256
  {
    seq(|binary|, i requires 0 <= i < |binary| => binary[i] as int)
  }

  method BytesToBase64(bytes: seq<Byte>) returns (s: string)
    ensures s == Base64(bytes)
  {
    var binary := "";
    for i := 0 to |bytes|
      invariant |binary| == i
      invariant forall k :: 0 <= k < i ==> binary[k] as int == bytes[k]
    {
      binary := binary + [bytes[i] as char];
    }
    assert CodesOf(binary) == bytes;
    s := Base64(CodesOf(binary));
  }
}
