/**
 * The utility module: the password checksum and its check, and the storage
 * helpers that read and write session storage through a JSON codec.
 */
module Helpers {
  import opened Wrappers
  import opened JsStrings
  import opened Int32
  import opened Radix
  import opened WebStorage

  // ---------------------------------------------------------------------------
  // Password checksum

  /** One pass of the loop body of hashPassword, operator by operator: `(hash << 5) - hash + char`, then `hash & hash`. */
  function LoopStep(hash: int, ch: CodeUnit): (h: int)
    ensures InInt32Range(h)
  {
    var next := LeftShift(hash, 5) - hash + ch;
    BitwiseAnd(next, next)
  }

  /** The step the loop computes: `31 * hash + ch`, wrapped to a signed 32-bit integer. */
  function RollingStep(hash: int, ch: CodeUnit): (h: int)
    ensures InInt32Range(h)
    ensures Congruent(31 * hash + ch, h)
  {
    ToInt32(31 * hash + ch)
  }

  /** The shift-and-mask loop body is the wrapped multiply-by-31 step. */
  lemma LoopStepIsRollingStep(hash: int, ch: CodeUnit)
    ensures LoopStep(hash, ch) == RollingStep(hash, ch)
  {
    var shifted := LeftShift(hash, 5);
    var next := shifted - hash + ch;
    assert Congruent(next, 31 * hash + ch) by {
      LeftShiftFive(hash);
      CongruentStep(shifted, 32 * hash, 1, ch - hash);
    }
    assert LoopStep(hash, ch) == ToInt32(next) by {
      BitwiseAndSelf(next);
    }
    ToInt32OfCongruent(next, 31 * hash + ch);
  }

  /** The checksum of a string: starts at 0 and takes one RollingStep per code unit. */
  function RollingHash(s: JsString): (h: int)
    ensures InInt32Range(h)
  {
    if s == [] then 0 else RollingStep(RollingHash(s[..|s| - 1]), s[|s| - 1])
  }

  /** One pass of the loop extends the checksum of the prefix read so far by one code unit. */
  lemma HashLoopStep(s: JsString, i: nat, before: int, after: int)
    requires i < |s| && before == RollingHash(s[..i])
    requires after == BitwiseAnd(LeftShift(before, 5) - before + s[i], LeftShift(before, 5) - before + s[i])
    ensures after == RollingHash(s[..i + 1])
  {
    assert after == LoopStep(before, s[i]);
    LoopStepIsRollingStep(before, s[i]);
    assert s[..i + 1][..i] == s[..i];
  }

  /** Math.abs */
  function Abs(x: int): nat {
    if x < 0 then -x else x
  }

  /**
   * What hashPassword returns: the base-36 numeral of the checksum's absolute value.
   * It is a non-empty string of the digits 0-9a-z without sign or leading zero,
   * and its value is at most 2^31.
   */
  function PasswordHash(password: JsString): (r: JsString)
    ensures IsCanonical(r)
    ensures FromBase36(r) == Abs(RollingHash(password)) <= TwoTo31
  {
    FromToBase36(Abs(RollingHash(password)));
    ToBase36(Abs(RollingHash(password)))
  }

  /** hashPassword: the loop over the code units, computing exactly PasswordHash. */
  method HashPassword(password: JsString) returns (digest: JsString)
    ensures digest == PasswordHash(password)
  {
    var hash := 0;
    var i := 0;
    while i < |password|
      invariant 0 <= i <= |password|
      invariant InInt32Range(hash)
      invariant hash == RollingHash(password[..i])
    {
      var ch := password[i];
      ghost var before := hash;
      hash := LeftShift(hash, 5) - hash + ch;
      hash := BitwiseAnd(hash, hash);
      HashLoopStep(password, i, before, hash);
      i := i + 1;
    }
    assert password[..i] == password;
    digest := ToBase36(Abs(hash));
  }

  /**
   * verifyPassword: accepts exactly the canonical base-36 numeral of the password's
   * checksum, so a stored hash verifies iff it is what hashPassword produced.
   */
  function VerifyPassword(password: JsString, hash: JsString): (ok: bool)
    ensures ok <==> IsCanonical(hash) && FromBase36(hash) == Abs(RollingHash(password))
  {
    HashNumeralUnique(password, hash);
    PasswordHash(password) == hash
  }

  /** A canonical numeral with the checksum's value is the password's hash. */
  lemma HashNumeralUnique(password: JsString, hash: JsString)
    ensures IsCanonical(hash) && FromBase36(hash) == Abs(RollingHash(password)) ==> hash == PasswordHash(password)
  {
    if IsCanonical(hash) && FromBase36(hash) == Abs(RollingHash(password)) {
      ToFromBase36(hash);
    }
  }

  /** Every password verifies against its own hash. */
  lemma VerifyOwnHash(password: JsString)
    ensures VerifyPassword(password, PasswordHash(password))
  {
  }

  /** The empty password hashes to "0". */
  lemma EmptyPasswordHash()
    ensures PasswordHash([]) == [Zero]
  {
  }

  /** Two different passwords can share a hash: "Aa" verifies against the hash of "BB". */
  lemma ChecksumCollision()
    ensures Lit("Aa") != Lit("BB")
    ensures VerifyPassword(Lit("Aa"), PasswordHash(Lit("BB")))
  {
    var aa, bb := Lit("Aa"), Lit("BB");
    assert aa == [0x41, 0x61] && bb == [0x42, 0x42];
    assert aa[..1] == [0x41] && bb[..1] == [0x42];
    assert RollingHash([0x41]) == 0x41 by {
      assert [0x41][..0] == [];
      ToInt32OfInt32(0x41);
    }
    assert RollingHash([0x42]) == 0x42 by {
      assert [0x42][..0] == [];
      ToInt32OfInt32(0x42);
    }
    ToInt32OfInt32(31 * 0x41 + 0x61);
    ToInt32OfInt32(31 * 0x42 + 0x42);
    assert RollingHash(aa) == 2112 == RollingHash(bb);
  }

  // ---------------------------------------------------------------------------
  // Session storage with a JSON codec

  /**
   * What safeSessionStorageGet returns for the storage contents `items`: either
   * the fallback or the value the stored text parses to.
   */
  function Loaded<V>(items: map<JsString, JsString>, key: JsString, fallback: V, parse: JsString -> Option<V>): (v: V)
    ensures v == fallback || (key in items && parse(items[key]) == Some(v))
  {
    if key in items && items[key] != [] && parse(items[key]).Some? then parse(items[key]).value else fallback
  }

  /**
   * The storage contents after safeSessionStorageGet: the entry is dropped when
   * it is non-empty and does not parse; otherwise nothing changes.
   */
  function Remaining<V>(items: map<JsString, JsString>, key: JsString, parse: JsString -> Option<V>)
    : (after: map<JsString, JsString>)
    ensures after.Keys <= items.Keys && items.Keys - after.Keys <= {key}
    ensures forall k :: k in after ==> after[k] == items[k]
  {
    if key in items && items[key] != [] && parse(items[key]).None? then items - {key} else items
  }

  /**
   * safeSessionStorageGet. `parse` stands for JSON.parse: None when it throws.
   * A missing key or an empty stored string gives the fallback and changes nothing;
   * a value that does not parse is removed and gives the fallback; any other value
   * is returned parsed. No other key changes.
   */
  method SafeGet<V>(store: SessionStorage, key: JsString, fallback: V, parse: JsString -> Option<V>)
    returns (value: V)
    modifies store
    ensures value == Loaded(old(store.items), key, fallback, parse)
    ensures store.items == Remaining(old(store.items), key, parse)
    ensures key !in old(store.items) || old(store.items)[key] == [] ==>
      value == fallback && store.items == old(store.items)
    ensures key in old(store.items) && old(store.items)[key] != [] && parse(old(store.items)[key]).Some? ==>
      value == parse(old(store.items)[key]).value && store.items == old(store.items)
    ensures key in old(store.items) && old(store.items)[key] != [] && parse(old(store.items)[key]).None? ==>
      value == fallback && store.items == old(store.items) - {key}
  {
    var item := store.GetItem(key);
    if item.Some? && item.value != [] {
      var parsed := parse(item.value);
      if parsed.Some? {
        value := parsed.value;
      } else {
        store.RemoveItem(key);
        value := fallback;
      }
    } else {
      value := fallback;
    }
  }

  /**
   * safeSessionStorageSet. `serialize` stands for JSON.stringify (None when it
   * throws) and `fits` for whether the browser accepts the write. A successful
   * write maps the key to the serialised data and touches no other key; a failed
   * one, of either kind, leaves the storage unchanged. The caller is not told.
   */
  method SafeSet<V>(store: SessionStorage, key: JsString, data: V, serialize: V -> Option<JsString>, fits: bool)
    modifies store
    ensures serialize(data).Some? && fits ==> store.items == old(store.items)[key := serialize(data).value]
    ensures serialize(data).None? || !fits ==> store.items == old(store.items)
  {
    var text := serialize(data);
    if text.Some? {
      var _ := store.SetItem(key, text.value, fits);
    }
  }

  /**
   * Writing a value and reading it back returns the value, for any codec whose
   * parse undoes its serialise on that value and which never produces the empty
   * string (JSON text never is).
   */
  method SetThenGet<V>(store: SessionStorage, key: JsString, data: V, fallback: V,
                       parse: JsString -> Option<V>, serialize: V -> Option<JsString>)
    returns (value: V)
    requires serialize(data).Some? && serialize(data).value != []
    requires parse(serialize(data).value) == Some(data)
    modifies store
    ensures value == data
    ensures store.items == old(store.items)[key := serialize(data).value]
  {
    SafeSet(store, key, data, serialize, true);
    value := SafeGet(store, key, fallback, parse);
  }
}
