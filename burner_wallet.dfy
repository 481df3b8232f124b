/**
 * The burner wallet's private key in local storage: validity by length,
 * saving when a browser window exists, and loading with a fallback to the
 * default key generated once when the module loads (a parameter here).
 */
module BurnerWallet {
  import opened Wrappers
  import opened JsStrings

  const BurnerStorageKey: string := "scaffoldEth2.burnerWallet.sk"
  /** The key `loadBurnerSK` starts from when nothing can be read. */
  const EmptyKey: string := "0x"

  /** `isValidSk`: a present key of 64 or 66 characters. */
  predicate IsValidSk(pk: Option<string>) {
    pk.Some? && (|pk.value| == 64 || |pk.value| == 66)
  }

  /** The key `loadBurnerSK` reads: the stored string with every '"' removed, or "0x". */
  function CurrentSk(storage: map<string, string>, hasWindow: bool): (sk: string)
    ensures '"' !in sk
    ensures !hasWindow || BurnerStorageKey !in storage ==> sk == EmptyKey
  {
    if hasWindow && BurnerStorageKey in storage then ReplaceAll(storage[BurnerStorageKey], '"', "") else EmptyKey
  }

  /** The storage after `saveBurnerSK(privateKey)`. */
  function Saved(storage: map<string, string>, hasWindow: bool, privateKey: string): map<string, string> {
    if hasWindow then storage[BurnerStorageKey := privateKey] else storage
  }

  /** The key `loadBurnerSK` returns and the storage it leaves. */
  function Load(storage: map<string, string>, hasWindow: bool, defaultKey: string): (string, map<string, string>) {
    var currentSk := CurrentSk(storage, hasWindow);
    if IsValidSk(Some(currentSk)) then (currentSk, storage)
    else (defaultKey, Saved(storage, hasWindow, defaultKey))
  }

  lemma IsValidSkIff(pk: Option<string>)
    ensures IsValidSk(pk) <==> pk.Some? && |pk.value| in {64, 66}
    ensures !IsValidSk(None) && !IsValidSk(Some(EmptyKey))
  {
  }

  /** A valid stored key is returned with its quotes removed, and nothing is written. */
  lemma ValidKeyIsReturned(storage: map<string, string>, hasWindow: bool, defaultKey: string)
    requires IsValidSk(Some(CurrentSk(storage, hasWindow)))
    ensures hasWindow && BurnerStorageKey in storage
    ensures Load(storage, hasWindow, defaultKey) == (ReplaceAll(storage[BurnerStorageKey], '"', ""), storage)
  {
  }

  /** A key stored as a JSON string, quotes around a valid key, loads as that key. */
  lemma QuotedKeyLoads(storage: map<string, string>, defaultKey: string, key: string)
    requires BurnerStorageKey in storage && storage[BurnerStorageKey] == "\"" + key + "\""
    requires '"' !in key && IsValidSk(Some(key))
    ensures Load(storage, true, defaultKey) == (key, storage)
  {
    var s := storage[BurnerStorageKey];
    assert s[0] == '"' && s[1..] == key + "\"";
    assert ReplaceAll(s, '"', "") == ReplaceAll(key + "\"", '"', "");
    ReplaceAllConcat(key, "\"", '"', "");
    assert ReplaceAll("\"", '"', "") == "";
    assert ReplaceAll(s, '"', "") == key;
  }

  lemma ReplaceAllConcat(a: string, b: string, c: char, rep: string)
    ensures ReplaceAll(a + b, c, rep) == ReplaceAll(a, c, rep) + ReplaceAll(b, c, rep)
    decreases |a|
  {
    if a == "" {
      assert a + b == b;
    } else {
      assert (a + b)[1..] == a[1..] + b;
      ReplaceAllConcat(a[1..], b, c, rep);
    }
  }

  /** An invalid or missing key falls back to the default key, which is saved when a window exists. */
  lemma InvalidKeyFallsBack(storage: map<string, string>, hasWindow: bool, defaultKey: string)
    requires !IsValidSk(Some(CurrentSk(storage, hasWindow)))
    ensures var (sk, after) := Load(storage, hasWindow, defaultKey);
            sk == defaultKey
            && (hasWindow ==> after == storage[BurnerStorageKey := defaultKey])
            && (!hasWindow ==> after == storage)
  {
  }

  /** Without a window the default key is returned and storage is untouched, whatever it holds. */
  lemma NoWindowGivesDefault(storage: map<string, string>, defaultKey: string)
    ensures Load(storage, false, defaultKey) == (defaultKey, storage)
  {
  }

  /**
   * With a valid default key free of quotes, loading is idempotent: a second
   * load returns the key of the first and writes nothing.
   */
  lemma {:induction false} LoadIdempotent(storage: map<string, string>, hasWindow: bool, defaultKey: string)
    requires IsValidSk(Some(defaultKey)) && '"' !in defaultKey
    ensures var (sk, after) := Load(storage, hasWindow, defaultKey);
            Load(after, hasWindow, defaultKey) == (sk, after)
  {
    var (sk, after) := Load(storage, hasWindow, defaultKey);
    if hasWindow && !IsValidSk(Some(CurrentSk(storage, hasWindow))) {
      assert after[BurnerStorageKey] == defaultKey;
      assert CurrentSk(after, hasWindow) == defaultKey;
    }
  }

  /** Local storage as seen by the burner-wallet helpers. */
  class BurnerKeyStore {
    const hasWindow: bool
    /** `newDefaultPrivateKey`, generated once. */
    const defaultKey: string
    var storage: map<string, string>

    constructor (hasWindow0: bool, defaultKey0: string, storage0: map<string, string>)
      ensures hasWindow == hasWindow0 && defaultKey == defaultKey0 && storage == storage0
    {
      hasWindow := hasWindow0;
      defaultKey := defaultKey0;
      storage := storage0;
    }

    /** `saveBurnerSK`: writes the key only when a window exists. */
    method SaveBurnerSK(privateKey: string)
      modifies this
      ensures storage == Saved(old(storage), hasWindow, privateKey)
    {
      if hasWindow {
        storage := storage[BurnerStorageKey := privateKey];
      }
    }

    /** `loadBurnerSK`. */
    method LoadBurnerSK() returns (sk: string)
      modifies this
      ensures (sk, storage) == Load(old(storage), hasWindow, defaultKey)
    {
      var currentSk := EmptyKey;
      if hasWindow {
        currentSk := if BurnerStorageKey in storage then ReplaceAll(storage[BurnerStorageKey], '"', "") else EmptyKey;
      }
      if IsValidSk(Some(currentSk)) {
        sk := currentSk;
      } else {
        SaveBurnerSK(defaultKey);
        sk := defaultKey;
      }
    }
  }
}
