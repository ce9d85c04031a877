/** Password strings, their validation, and the password hash format. */
module PasswordPolicy {
  import opened Bytes
  import opened Efi

  type Char16 = x: int | 0 <= x < 0x1_0000

  const PW_MIN_LENGTH := 6
  const PW_MAX_LENGTH := 128

  // ---------------------------------------------------------- string checks

  const UPPER: string := "ABCDEFGHIJKLMNOPQRSTUVWXYZ"
  const LOWER: string := "abcdefghijklmnopqrstuvwxyz"
  const DIGITS: string := "0123456789"
  const SYMBOLS: string := "!@#$%^&*()?<>{}[]-_=+|.,;:'`~\""
  const VALID_CHARS: string := UPPER + LOWER + DIGITS + SYMBOLS

  predicate IsAllowed(c: Char16) {
    exists i :: 0 <= i < |VALID_CHARS| && VALID_CHARS[i] as int == c
  }

  /** Printable ASCII characters other than letters, digits, the space, the slash and the backslash. */
  predicate IsSymbol(c: int) {
    0x21 <= c <= 0x2E || 0x3A <= c <= 0x40 || c == 0x5B || 0x5D <= c <= 0x60 || 0x7B <= c <= 0x7E
  }

  lemma Uppers(i: nat)
    requires i < 26
    ensures |UPPER| == 26 && UPPER[i] as int == 0x41 + i
  {
  }

  lemma Lowers(i: nat)
    requires i < 26
    ensures |LOWER| == 26 && LOWER[i] as int == 0x61 + i
  {
  }

  lemma Digits(i: nat)
    requires i < 10
    ensures |DIGITS| == 10 && DIGITS[i] as int == 0x30 + i
  {
  }

  lemma Symbols(i: nat)
    requires i < 30
    ensures |SYMBOLS| == 30 && IsSymbol(SYMBOLS[i] as int)
  {
  }

  /** Where a symbol stands in the list. */
  function SymbolPlace(c: int): (i: nat)
    requires IsSymbol(c)
    ensures i < |SYMBOLS| && SYMBOLS[i] as int == c
  {
    if c < 0x2F then [0, 29, 2, 3, 4, 6, 26, 8, 9, 7, 20, 23, 17, 22][c - 0x21]
    else if c < 0x41 then [25, 24, 11, 19, 12, 10, 1][c - 0x3A]
    else if c < 0x7B then [15, 15, 16, 5, 18, 27][c - 0x5B]
    else [13, 21, 14, 28][c - 0x7B]
  }

  lemma CharAt(i: nat)
    requires i < |VALID_CHARS|
    ensures |VALID_CHARS| == 92
    ensures 0x21 <= VALID_CHARS[i] as int <= 0x7E && VALID_CHARS[i] != '/' && VALID_CHARS[i] != '\\'
  {
    hide UPPER, LOWER, DIGITS, SYMBOLS;
    Uppers(0);
    Lowers(0);
    Digits(0);
    Symbols(0);
    if i < 26 {
      Uppers(i);
    } else if i < 52 {
      Lowers(i - 26);
    } else if i < 62 {
      Digits(i - 52);
    } else {
      Symbols(i - 62);
    }
  }

  /** The allowed characters are the printable ASCII ones without the space, the slash and the backslash. */
  lemma AllowedMeans(c: Char16)
    ensures IsAllowed(c) <==> 0x21 <= c <= 0x7E && c != 0x2F && c != 0x5C
  {
    hide UPPER, LOWER, DIGITS, SYMBOLS;
    forall i | 0 <= i < |VALID_CHARS|
      ensures 0x21 <= VALID_CHARS[i] as int <= 0x7E && VALID_CHARS[i] as int != 0x2F && VALID_CHARS[i] as int != 0x5C
    {
      CharAt(i);
    }
    if 0x21 <= c <= 0x7E && c != 0x2F && c != 0x5C { IsInList(c); }
  }

  lemma IsInList(c: int)
    requires 0x21 <= c <= 0x7E && c != 0x2F && c != 0x5C
    ensures exists i :: 0 <= i < |VALID_CHARS| && VALID_CHARS[i] as int == c
  {
    hide UPPER, LOWER, DIGITS, SYMBOLS;
    Uppers(0);
    Lowers(0);
    Digits(0);
    Symbols(0);
    var i: nat;
    if 0x41 <= c <= 0x5A {
      i := c - 0x41;
      Uppers(i);
    } else if 0x61 <= c <= 0x7A {
      i := 26 + c - 0x61;
      Lowers(c - 0x61);
    } else if 0x30 <= c <= 0x39 {
      i := 52 + c - 0x30;
      Digits(c - 0x30);
    } else {
      i := 62 + SymbolPlace(c);
    }
    assert VALID_CHARS[i] as int == c;
  }

  /** The text of a NUL-terminated string. */
  predicate IsText(s: seq<Char16>) {
    0 !in s
  }

  function Truncated(s: seq<Char16>): seq<Char16> {
    if |s| > PW_MAX_LENGTH then s[..PW_MAX_LENGTH] else s
  }

  predicate AllAllowed(s: seq<Char16>) {
    forall i :: 0 <= i < |s| ==> IsAllowed(s[i])
  }

  /** The policy: 6 to 128 characters, all of them allowed. */
  predicate IsAcceptable(s: seq<Char16>) {
    PW_MIN_LENGTH <= |s| <= PW_MAX_LENGTH && AllAllowed(s)
  }

  /** The bits of the failure bitmap. */
  datatype Test = StringNull | StringTooShort | StringTooLong | StringInvalidChar

  /** What full mode reports: each test on its own, the last two on the truncated copy. */
  function FailedTests(s: Option<seq<Char16>>): set<Test> {
    match s
    case None => {StringNull}
    case Some(text) =>
      (if |text| > PW_MAX_LENGTH then {StringTooLong} else {})
      + (if |Truncated(text)| < PW_MIN_LENGTH then {StringTooShort} else {})
      + (if AllAllowed(Truncated(text)) then {} else {StringInvalidChar})
  }

  /** The policy in full: 6 to 128 printable ASCII characters, none a space, a slash or a backslash. */
  lemma AcceptableMeans(s: seq<Char16>)
    ensures IsAcceptable(s)
      <==> 6 <= |s| <= 128 && forall i :: 0 <= i < |s| ==> 0x21 <= s[i] <= 0x7E && s[i] != 0x2F && s[i] != 0x5C
  {
    forall i | 0 <= i < |s| ensures IsAllowed(s[i]) <==> 0x21 <= s[i] <= 0x7E && s[i] != 0x2F && s[i] != 0x5C {
      AllowedMeans(s[i]);
    }
    hide IsAllowed;
  }

  /** Each bit on its own: NULL, under 6, over 128, and a refused character among the first 128. */
  lemma FailedTestsMean(s: Option<seq<Char16>>)
    ensures StringNull in FailedTests(s) <==> s.None?
    ensures StringTooShort in FailedTests(s) <==> s.Some? && |s.value| < 6
    ensures StringTooLong in FailedTests(s) <==> s.Some? && |s.value| > 128
    ensures StringInvalidChar in FailedTests(s)
      <==> s.Some? && exists i :: 0 <= i < |s.value| && i < 128 && !IsAllowed(s.value[i])
  {
    hide IsAllowed;
    if s.Some? {
      var text := s.value;
      assert AllAllowed(Truncated(text)) <==> forall i :: 0 <= i < |text| && i < 128 ==> IsAllowed(text[i]) by {
        forall i | 0 <= i < |text| && i < 128 ensures Truncated(text)[i] == text[i] { }
      }
    }
  }

  /** The buffer holds text as a NUL-terminated string. */
  ghost predicate Holds(buffer: array<Char16>, text: seq<Char16>)
    reads buffer
  {
    IsText(text) && |text| < buffer.Length && buffer[..|text|] == text && buffer[|text|] == 0
  }

  method IsValidChar(c: Char16) returns (result: bool)
    ensures result == IsAllowed(c)
  {
    hide UPPER, LOWER, DIGITS, SYMBOLS;
    result := false;
    for index := 0 to |VALID_CHARS|
      invariant forall i :: 0 <= i < index ==> VALID_CHARS[i] as int != c
    {
      if VALID_CHARS[index] as int == c { return true; }
    }
  }

  /** At most 128 characters are copied, and the copy is always terminated. */
  method SafeCopyPassword(buffer: array?<Char16>, password: seq<Char16>) returns (status: Status)
    requires IsText(password)
    modifies buffer
    ensures status == if buffer == null then InvalidParameter
                      else if buffer.Length < PW_MAX_LENGTH + 1 then BufferTooSmall
                      else Success
    ensures if status == Success then Holds(buffer, Truncated(password))
            else buffer != null ==> buffer[..] == old(buffer[..])
  {
    if buffer == null { return InvalidParameter; }
    if buffer.Length < PW_MAX_LENGTH + 1 { return BufferTooSmall; }
    var i := 0;
    while i < PW_MAX_LENGTH && i < |password|
      invariant 0 <= i <= |password| && i <= PW_MAX_LENGTH
      invariant buffer[..i] == password[..i]
    {
      buffer[i] := password[i];
      i := i + 1;
    }
    buffer[i] := 0;
    ghost var copied := buffer[..i];
    buffer[PW_MAX_LENGTH] := 0;
    assert buffer[..i] == copied;
    status := Success;
  }

  method StrLen(buffer: array<Char16>, ghost text: seq<Char16>) returns (length: nat)
    requires Holds(buffer, text)
    ensures length == |text|
  {
    assert forall i :: 0 <= i < |text| ==> buffer[i] == buffer[..|text|][i] == text[i];
    length := 0;
    while buffer[length] != 0
      invariant length <= |text|
      decreases |text| - length
    {
      length := length + 1;
    }
  }

  method Cleanse(buffer: array<Char16>)
    modifies buffer
    ensures forall i :: 0 <= i < buffer.Length ==> buffer[i] == 0
  {
    for i := 0 to buffer.Length
      invariant forall j :: 0 <= j < i ==> buffer[j] == 0
    {
      buffer[i] := 0;
    }
  }

  /**
   The validator. Without a bitmap it stops testing at the first failure, with one
   it runs every test; both modes give the answer of the policy.
   */
  method IsPwStringValid(s: Option<seq<Char16>>, full: bool) returns (result: bool, failures: set<Test>)
    requires s.Some? ==> IsText(s.value)
    ensures result <==> s.Some? && IsAcceptable(s.value)
    ensures failures == if full then FailedTests(s) else {}
    ensures full ==> (result <==> failures == {})
  {
    failures := {};
    if s.None? {
      return false, if full then {StringNull} else {};
    }
    result := true;
    var temp := new Char16[PW_MAX_LENGTH + 1];
    var _ := SafeCopyPassword(temp, s.value);
    ghost var text := Truncated(s.value);
    var length := StrLen(temp, text);
    if s.value != temp[..length] {
      if full { failures := failures + {StringTooLong}; }
      result := false;
    }
    if result || full {
      if length < PW_MIN_LENGTH {
        if full { failures := failures + {StringTooShort}; }
        result := false;
      }
    }
    if result || full {
      var bad := HasInvalidChar(temp, length);
      if bad {
        if full { failures := failures + {StringInvalidChar}; }
        result := false;
      }
    }
    Cleanse(temp);
  }

  method HasInvalidChar(temp: array<Char16>, length: nat) returns (bad: bool)
    requires length <= temp.Length
    ensures bad <==> !AllAllowed(temp[..length])
  {
    hide IsAllowed;
    for index := 0 to length
      invariant forall i :: 0 <= i < index ==> IsAllowed(temp[i])
    {
      var valid := IsValidChar(temp[index]);
      if !valid {
        assert !IsAllowed(temp[..length][index]);
        return true;
      }
    }
    bad := false;
  }

  // ------------------------------------------------------------ hash format

  const HASH_VERSION_1 := 1
  const SALT_SIZE := 32
  const KEY_SIZE := 40
  const HASH_SIZE := 74
  const HASH_DELETE: U32 := 0xADDEADDE

  /** Version, salt, key. */
  predicate IsVersion1(h: seq<Byte>) {
    |h| == HASH_SIZE && FromLE(h[..2]) == HASH_VERSION_1
  }

  predicate IsDeleteMarker(h: seq<Byte>) {
    |h| >= 4 && FromLE(h[..4]) == HASH_DELETE
  }

  function Salt(h: seq<Byte>): seq<Byte>
    requires |h| >= 2 + SALT_SIZE
  {
    h[2..2 + SALT_SIZE]
  }

  function Key(h: seq<Byte>): seq<Byte>
    requires |h| >= HASH_SIZE
  {
    h[2 + SALT_SIZE..HASH_SIZE]
  }

  function Version1(salt: seq<Byte>, key: seq<Byte>): seq<Byte> {
    LE(HASH_VERSION_1, 2) + salt + key
  }

  function DeleteHash(): (h: seq<Byte>)
    ensures |h| == 4
  {
    LE(HASH_DELETE, 4)
  }

  /** The two forms byte by byte: DE AD DE AD in front, or 01 00 and 74 bytes in all. */
  lemma FormatBytes(h: seq<Byte>)
    ensures IsDeleteMarker(h) <==> |h| >= 4 && h[0] == 0xDE && h[1] == 0xAD && h[2] == 0xDE && h[3] == 0xAD
    ensures IsVersion1(h) <==> |h| == 74 && h[0] == 1 && h[1] == 0
    ensures |h| >= 74 ==> Salt(h) == h[2..34] && Key(h) == h[34..74]
  {
    if |h| >= 4 {
      FourBytes(h[..4]);
      assert h[..4][..2] == h[..2];
    }
  }

  lemma FourBytes(w: seq<Byte>)
    requires |w| == 4
    ensures FromLE(w[..2]) == 1 <==> w[0] == 1 && w[1] == 0
    ensures FromLE(w) == 0xADDEADDE <==> w[0] == 0xDE && w[1] == 0xAD && w[2] == 0xDE && w[3] == 0xAD
  {
    assert FromLE(w[..2]) == w[0] as int + 256 * FromLE(w[..2][1..]);
    assert FromLE(w[..2][1..]) == w[1] as int;
    assert FromLE(w) == w[0] as int + 256 * FromLE(w[1..]);
    assert FromLE(w[1..]) == w[1] as int + 256 * FromLE(w[2..]);
    assert FromLE(w[2..]) == w[2] as int + 256 * FromLE(w[3..]);
    assert FromLE(w[3..]) == w[3] as int;
  }

  lemma Version1Parts(salt: seq<Byte>, key: seq<Byte>)
    requires |salt| == SALT_SIZE && |key| == KEY_SIZE
    ensures var h := Version1(salt, key); IsVersion1(h) && Salt(h) == salt && Key(h) == key
  {
    var h := Version1(salt, key);
    Widths();
    FromToLE(HASH_VERSION_1, 2);
    hide LE, FromLE;
    assert h[..2] == LE(HASH_VERSION_1, 2);
  }

  lemma Version1Bytes(salt: seq<Byte>, key: seq<Byte>)
    ensures Version1(salt, key) == [1, 0] + salt + key
  {
    assert LE(1, 2) == [1] + LE(0, 1);
    assert LE(0, 1) == [0];
  }

  /** A version-1 hash is what its salt and key make of it. */
  lemma Version1Rebuilt(h: seq<Byte>)
    requires |h| >= HASH_SIZE && FromLE(h[..2]) == HASH_VERSION_1
    ensures h[..HASH_SIZE] == Version1(Salt(h), Key(h))
  {
    ToFromLE(h[..2]);
    hide LE, FromLE;
    assert h[..HASH_SIZE] == h[..2] + h[2..34] + h[34..HASH_SIZE];
  }

  lemma DeleteMarkerStart(h: seq<Byte>)
    requires |h| >= 4
    ensures IsDeleteMarker(h) <==> h[..4] == DeleteHash()
  {
    Widths();
    FromToLE(HASH_DELETE, 4);
    ToFromLE(h[..4]);
    hide LE, FromLE;
  }

  /** No byte string is both. */
  lemma VersionsAreApart(h: seq<Byte>)
    requires |h| >= 4 && FromLE(h[..2]) == HASH_VERSION_1
    ensures !IsDeleteMarker(h)
  {
    assert h[..4] == h[..2] + h[2..4];
    FromLEConcat(h[..2], h[2..4]);
    Widths();
    ToFromLE(h[2..4]);
    hide LE, FromLE;
  }

  /**
   ValidatePasswordHash accepts delete markers of any length and version-1 hashes of
   the right length, nothing else.
   */
  method ValidatePasswordHash(hash: Option<seq<Byte>>) returns (status: Status)
    ensures status == if hash.Some? && (IsDeleteMarker(hash.value) || IsVersion1(hash.value)) then Success
                      else InvalidParameter
  {
    hide FromLE;
    status := InvalidParameter;
    if hash.None? || |hash.value| < 2 { return; }
    var h := hash.value;
    if |h| >= 4 {
      if FromLE(h[..4]) == HASH_DELETE { return Success; }
    }
    if FromLE(h[..2]) == HASH_VERSION_1 {
      if |h| == HASH_SIZE {
        status := Success;
      }
    }
  }

  /** The key derivation over a password text and a salt; it may fail. */
  type Kdf = (seq<Char16>, seq<Byte>) -> Option<seq<Byte>>

  ghost predicate KdfSizes(kdf: Kdf) {
    forall p, s {:trigger kdf(p, s)} :: kdf(p, s).Some? ==> |kdf(p, s).value| == KEY_SIZE
  }

  /** The hash of an acceptable password under a salt. */
  function HashOf(password: seq<Char16>, salt: seq<Byte>, kdf: Kdf): Option<seq<Byte>> {
    match kdf(password, salt)
    case None => None
    case Some(key) => Some(Version1(salt, key))
  }

  /** The old hash has its version, and for version 1 its salt, inside its buffer. */
  predicate IsReadable(oldHash: seq<Byte>) {
    |oldHash| >= 2 && (FromLE(oldHash[..2]) == HASH_VERSION_1 ==> |oldHash| >= 2 + SALT_SIZE)
  }

  /** The salt to derive with: that of the old hash, or fresh (None when the random generator fails). */
  function SaltFor(oldHash: Option<seq<Byte>>, freshSalt: Option<seq<Byte>>): Option<seq<Byte>>
    requires oldHash.Some? ==> |oldHash.value| >= 2 + SALT_SIZE
  {
    if oldHash.Some? then Some(Salt(oldHash.value)) else freshSalt
  }

  /**
   GeneratePasswordHash: no password gives the delete marker, for which the pool is
   assumed to have room; a password must be acceptable and the old hash, if any, of
   version 1. Every failure below that is reported as an abort.
   */
  method GeneratePasswordHash(oldHash: Option<seq<Byte>>, password: Option<seq<Char16>>, outputsGiven: bool,
                              poolAvailable: bool, freshSalt: Option<seq<Byte>>, kdf: Kdf)
    returns (status: Status, hash: Option<seq<Byte>>)
    requires password.Some? ==> IsText(password.value)
    requires oldHash.Some? ==> IsReadable(oldHash.value)
    requires outputsGiven && oldHash.None? && password.None? ==> poolAvailable
    ensures status == Success <==> hash.Some?
    ensures !outputsGiven ==> status == InvalidParameter
    ensures outputsGiven && password.None? ==>
      if oldHash.None? then hash == Some(DeleteHash()) else status == InvalidParameter
    ensures outputsGiven && password.Some? ==>
      if !IsAcceptable(password.value) || (oldHash.Some? && FromLE(oldHash.value[..2]) != HASH_VERSION_1)
      then status == InvalidParameter
      else if !poolAvailable then status == OutOfResources
      else var salt := SaltFor(oldHash, freshSalt);
           hash == (if salt.Some? then HashOf(password.value, salt.value, kdf) else None)
           && (hash.None? ==> status == Aborted)
  {
    hide LE, FromLE, IsAcceptable;
    hash := None;
    if !outputsGiven || (password.None? && oldHash.Some?) { return InvalidParameter, None; }
    if password.Some? {
      var valid, _ := IsPwStringValid(password, false);
      if !valid { return InvalidParameter, None; }
    }
    if password.None? { return Success, Some(DeleteHash()); }
    if oldHash.Some? && FromLE(oldHash.value[..2]) != HASH_VERSION_1 { return InvalidParameter, None; }
    if !poolAvailable { return OutOfResources, None; }
    var built, store := BuildV1PasswordStore(oldHash, password.value, freshSalt, kdf);
    if built != Success { return Aborted, None; }
    return Success, store;
  }

  /** The status of a failed derivation, which is that of its protocol. */
  const KDF_ERROR := Other(0)

  method BuildV1PasswordStore(oldHash: Option<seq<Byte>>, password: seq<Char16>, freshSalt: Option<seq<Byte>>, kdf: Kdf)
    returns (status: Status, hash: Option<seq<Byte>>)
    requires oldHash.Some? ==> |oldHash.value| >= 2 + SALT_SIZE
    ensures status == Success <==> hash.Some?
    ensures var salt := SaltFor(oldHash, freshSalt);
            && hash == (if salt.Some? then HashOf(password, salt.value, kdf) else None)
            && (hash.None? ==> status == if salt.None? then OutOfResources else KDF_ERROR)
  {
    hide LE, FromLE;
    var salt;
    if oldHash.None? {
      if freshSalt.None? { return OutOfResources, None; }
      salt := freshSalt.value;
    } else {
      salt := Salt(oldHash.value);
    }
    var key := kdf(password, salt);
    if key.None? { return KDF_ERROR, None; }
    return Success, Some(LE(HASH_VERSION_1, 2) + salt + key.value);
  }
}
