/** The password variable: set, query and authenticate. */
module PasswordStore {
  import opened Bytes
  import opened Efi
  import opened PasswordPolicy

  /** What SetPassword accepts. */
  predicate IsAccepted(hash: seq<Byte>) {
    IsDeleteMarker(hash) || IsVersion1(hash)
  }

  predicate HasVersion1(h: seq<Byte>) {
    |h| >= 2 && FromLE(h[..2]) == HASH_VERSION_1
  }

  /** The four bytes that are compared lie inside the variable. */
  predicate IsComparable(stored: Option<seq<Byte>>) {
    stored.Some? && stored.value != [] ==> |stored.value| >= 4
  }

  /** So do all bytes of a version-1 hash. */
  predicate IsReadableStore(stored: Option<seq<Byte>>) {
    && IsComparable(stored)
    && (stored.Some? && HasVersion1(stored.value) && |stored.value| != 4 ==> |stored.value| >= HASH_SIZE)
  }

  /** A password counts as set unless the variable is missing, empty, four bytes long, or a delete marker. */
  predicate IsSet(stored: Option<seq<Byte>>) {
    stored.Some? && stored.value != [] && |stored.value| != 4 && !IsDeleteMarker(stored.value)
  }

  /** The password, cut to 128 characters, is acceptable and derives the stored key under the stored salt. */
  predicate Matches(h: seq<Byte>, password: seq<Char16>, kdf: Kdf) {
    && HasVersion1(h) && |h| >= HASH_SIZE
    && IsAcceptable(Truncated(password)) && kdf(Truncated(password), Salt(h)) == Some(Key(h))
  }

  /** What set means, byte by byte. */
  lemma SetMeans(stored: Option<seq<Byte>>)
    ensures IsSet(stored)
      <==> && stored.Some? && |stored.value| > 0 && |stored.value| != 4
           && !(|stored.value| >= 4 && stored.value[..4] == [0xDE, 0xAD, 0xDE, 0xAD])
  {
    if stored.Some? && |stored.value| >= 4 { FormatBytes(stored.value); }
    hide IsDeleteMarker;
  }

  /** What matching means, byte by byte: version 1, and the derivation from the salt gives the key. */
  lemma MatchesMeans(h: seq<Byte>, password: seq<Char16>, kdf: Kdf)
    ensures var cut := if |password| > 128 then password[..128] else password;
            Matches(h, password, kdf)
            <==> && |h| >= 74 && h[0] == 1 && h[1] == 0
                 && |cut| >= 6 && (forall i :: 0 <= i < |cut| ==> IsAllowed(cut[i]))
                 && kdf(cut, h[2..34]) == Some(h[34..74])
  {
    if |h| >= 74 {
      FormatBytes(h[..74]);
      assert h[..74][..2] == h[..2];
    }
    hide IsAllowed, FromLE, IsDeleteMarker;
  }

  class Store {
    var stored: Option<seq<Byte>>

    constructor ()
      ensures stored == None
    {
      stored := None;
    }

    method SetPassword(hash: Option<seq<Byte>>, writeOk: bool) returns (status: Status)
      modifies this
      ensures var accepted := hash.Some? && IsAccepted(hash.value);
              && status == (if !accepted then InvalidParameter else if !writeOk then Aborted else Success)
              && stored == if accepted && writeOk then hash else old(stored)
    {
      hide FromLE;
      status := ValidatePasswordHash(hash);
      if status != Success { return; }
      if !writeOk { return Aborted; }
      stored := hash;
    }

    /**
     A missing or empty variable is initialised to the delete marker. A read that
     fails otherwise (Some, with the size it reports) finds no password set; it
     counts as missing when that size is zero.
     */
    method IsPasswordSet(readFault: Option<nat>, writeOk: bool) returns (result: bool)
      requires IsComparable(stored)
      modifies this
      ensures result == (readFault.None? && IsSet(old(stored)))
      ensures var missing := if readFault.Some? then readFault.value == 0
                             else old(stored) == None || old(stored) == Some([]);
              stored == if missing && writeOk then Some(DeleteHash()) else old(stored)
    {
      DeleteMarkerStart(DeleteHash());
      hide LE, FromLE;
      assert DeleteHash()[..4] == DeleteHash();
      result := false;
      var bufferSize := if readFault.Some? then readFault.value else if stored.Some? then |stored.value| else 0;
      if bufferSize == 0 {
        var _ := SetPassword(Some(DeleteHash()), writeOk);
      } else if readFault.None? {
        var h := stored.value;
        DeleteMarkerStart(h);
        if bufferSize != |DeleteHash()| && h[..4] != DeleteHash() {
          result := true;
        }
      }
    }

    /** No password set: everyone passes. Otherwise an empty password fails and any other must match. */
    method AuthenticatePassword(password: Option<seq<Char16>>, kdf: Kdf, readFault: Option<nat>, writeOk: bool,
                                readsAgain: bool, poolAvailable: bool)
      returns (result: bool)
      requires IsReadableStore(stored) && KdfSizes(kdf)
      requires password.Some? ==> IsText(password.value)
      modifies this
      ensures readFault.Some? || !IsSet(old(stored)) ==> result
      ensures readFault.None? && IsSet(old(stored)) ==>
        && stored == old(stored)
        && (result <==> password.Some? && password.value != [] && readsAgain && poolAvailable
                        && Matches(stored.value, password.value, kdf))
    {
      hide LE, FromLE, IsAcceptable, IsDeleteMarker;
      var isSet := IsPasswordSet(readFault, writeOk);
      if !isSet { return true; }
      if password.None? || |password.value| == 0 { return false; }
      var temp := new Char16[PW_MAX_LENGTH + 1];
      var _ := SafeCopyPassword(temp, password.value);
      ghost var text := Truncated(password.value);
      var length := StrLen(temp, text);
      assert temp[..length] == text;
      var status, rebuilt := Aborted, None;
      if readsAgain {
        status, rebuilt := GeneratePasswordHash(stored, Some(temp[..length]), true, poolAvailable, None, kdf);
      }
      Cleanse(temp);
      result := false;
      if status == Success {
        SameHashSameKey(stored.value, text, kdf);
        result := stored.value[..|rebuilt.value|] == rebuilt.value;
      }
    }
  }

  /** Comparing the whole hashes is comparing the keys. */
  lemma SameHashSameKey(h: seq<Byte>, text: seq<Char16>, kdf: Kdf)
    requires HasVersion1(h) && |h| >= HASH_SIZE && KdfSizes(kdf) && kdf(text, Salt(h)).Some?
    ensures |HashOf(text, Salt(h), kdf).value| == HASH_SIZE
    ensures h[..HASH_SIZE] == HashOf(text, Salt(h), kdf).value <==> kdf(text, Salt(h)) == Some(Key(h))
  {
    Version1Rebuilt(h);
    Version1Parts(Salt(h), kdf(text, Salt(h)).value);
    hide LE, FromLE;
  }

  /** What SetPassword accepts can be read back, and is a set password exactly when it is of version 1. */
  lemma AcceptedIsReadable(hash: seq<Byte>)
    requires IsAccepted(hash)
    ensures IsReadableStore(Some(hash)) && (IsSet(Some(hash)) <==> IsVersion1(hash))
  {
    hide FromLE;
    if HasVersion1(hash) && |hash| >= 4 { VersionsAreApart(hash); }
  }

  /**
   Set, then authenticate: a hash generated from an acceptable password is accepted
   by the store, counts as a set password, and matches another password exactly when
   that one's 128-character truncation is acceptable and derives the same key.
   */
  lemma StoredPasswordAuthenticates(password: seq<Char16>, other: seq<Char16>, salt: seq<Byte>, kdf: Kdf)
    requires IsAcceptable(password) && |salt| == SALT_SIZE && KdfSizes(kdf) && kdf(password, salt).Some?
    ensures var h := HashOf(password, salt, kdf).value;
            && IsAccepted(h) && IsReadableStore(Some(h)) && IsSet(Some(h))
            && Matches(h, password, kdf)
            && (Matches(h, other, kdf) <==>
                  IsAcceptable(Truncated(other)) && kdf(Truncated(other), salt) == kdf(password, salt))
  {
    Version1Parts(salt, kdf(password, salt).value);
    AcceptedIsReadable(HashOf(password, salt, kdf).value);
    hide LE, FromLE, AllAllowed, IsDeleteMarker;
  }
}
