/** The HSM mocks of the framework (mock_hsm.c): the key-cache lookup and
    DNSKEY fetch that resolve mock keys through the framework registry, the
    PKCS#11 sign and digest functions that write a fixed byte pattern into
    the caller's buffer, and the mock HSM context with one session whose
    module's symbol table points at those functions. A cmocka fail_msg
    becomes an error value. */
module MockHsm {
  import opened Wrappers
  import opened MockKeys

  /** Why a mock fails the test. */
  datatype MockFailure =
    | NoKeyWithLocator(locator: string)
    | KeyIndexOutOfRange(index: int, count: nat)

  /** The index of the first entry whose locator equals `locator`. */
  function FirstWithLocator(keys: seq<MockKey>, locator: string): (r: Option<nat>)
    ensures r.Some? ==> r.value < |keys| && keys[r.value].locator == locator
    ensures forall i :: 0 <= i < |keys| && (r.None? || i < r.value) ==> keys[i].locator != locator
  {
    if |keys| == 0 then None
    else if keys[0].locator == locator then Some(0)
    else match FirstWithLocator(keys[1..], locator)
      case None => None
      case Some(i) => Some(i + 1)
  }

  /** What __wrap_keycache_lookup answers over the entries `keys`: the
      handle of the first entry with the locator, or a failure naming the
      locator. */
  function LookupByLocator(keys: seq<MockKey>, locator: string): Result<HsmKey, MockFailure>
  {
    match FirstWithLocator(keys, locator)
    case Some(i) => Ok(keys[i].hsmKey)
    case None => Err(NoKeyWithLocator(locator))
  }

  /** What __wrap_hsm_get_dnskey answers over the entries `keys`: the
      record of the entry the handle's private key indexes, or a failure
      naming the index and the count. */
  function DnskeyOf(keys: seq<MockKey>, key: HsmKey): Result<Dnskey, MockFailure>
    requires key.privateKey >= 0
  {
    if key.privateKey >= |keys| then Err(KeyIndexOutOfRange(key.privateKey, |keys|))
    else Ok(keys[key.privateKey].dnskey)
  }

  /** An entry whose locator no earlier entry shares is found by its
      locator, and the handle found leads back to the entry's own DNSKEY. */
  lemma LookupThenGetDnskey(keys: seq<MockKey>, i: nat)
    requires IndexedKeys(keys) && i < |keys|
    requires forall j :: 0 <= j < i ==> keys[j].locator != keys[i].locator
    ensures LookupByLocator(keys, keys[i].locator) == Ok(keys[i].hsmKey)
    ensures keys[i].hsmKey.privateKey >= 0 && DnskeyOf(keys, keys[i].hsmKey) == Ok(keys[i].dnskey)
  {
    var r := FirstWithLocator(keys, keys[i].locator);
    assert r.Some?;
    assert !(r.value < i) && !(i < r.value);
  }

  /** Every handle the lookup hands out resolves: its DNSKEY is the record
      of an entry carrying the looked-up locator. */
  lemma LookupResolves(keys: seq<MockKey>, locator: string)
    requires IndexedKeys(keys)
    ensures LookupByLocator(keys, locator).Ok? ==>
      var key := LookupByLocator(keys, locator).value;
      key.privateKey >= 0 && DnskeyOf(keys, key).Ok? &&
      exists i :: 0 <= i < |keys| && keys[i].locator == locator && DnskeyOf(keys, key).value == keys[i].dnskey
  {
    var r := FirstWithLocator(keys, locator);
    if r.Some? {
      assert keys[r.value].hsmKey.privateKey == r.value;
    }
  }

  /** __wrap_keycache_lookup: a search of the registry's entries in order. */
  method KeycacheLookup(reg: FixedKeyRegistry, locator: string) returns (r: Result<HsmKey, MockFailure>)
    requires reg.Valid()
    ensures r == LookupByLocator(reg.Keys(), locator)
  {
    var i := 0;
    while i < reg.count
      invariant 0 <= i <= reg.count
      invariant forall j :: 0 <= j < i ==> reg.keys[j].locator != locator
    {
      if reg.keys[i].locator == locator {
        FirstLocatorAt(reg.Keys(), locator, i);
        return Ok(reg.keys[i].hsmKey);
      }
      i := i + 1;
    }
    assert forall j :: 0 <= j < |reg.Keys()| ==> reg.Keys()[j].locator != locator;
    return Err(NoKeyWithLocator(locator));
  }

  /** An entry with the locator after a run of entries without it is the
      first one. */
  lemma FirstLocatorAt(keys: seq<MockKey>, locator: string, i: nat)
    requires i < |keys| && keys[i].locator == locator
    requires forall j :: 0 <= j < i ==> keys[j].locator != locator
    ensures FirstWithLocator(keys, locator) == Some(i)
  {
    var r := FirstWithLocator(keys, locator);
    assert r.Some?;
    assert !(r.value < i) && !(i < r.value);
  }

  /** __wrap_hsm_get_dnskey: the handle's private key is taken as a registry
      index; an index at or past the count fails, any other yields that
      entry's record. A negative index is not checked by the mock and is
      excluded here. */
  method HsmGetDnskey(reg: FixedKeyRegistry, key: HsmKey) returns (r: Result<Dnskey, MockFailure>)
    requires reg.Valid() && key.privateKey >= 0
    ensures key.privateKey >= reg.count ==> r == Err(KeyIndexOutOfRange(key.privateKey, reg.count))
    ensures key.privateKey < reg.count ==> r.Ok? && r.value == reg.Keys()[key.privateKey].dnskey
    ensures r == DnskeyOf(reg.Keys(), key)
  {
    var mockKeyIdx := key.privateKey;
    var mockKeyCount := reg.count;
    if mockKeyIdx >= mockKeyCount {
      r := Err(KeyIndexOutOfRange(mockKeyIdx, mockKeyCount));
    } else {
      r := Ok(reg.keys[mockKeyIdx].dnskey);
    }
  }

  /** PKCS#11 return values the mocks use. */
  datatype CkRv = CkrOk

  /** The bytes mock_C_Digest and mock_C_Sign hand back: DE AD BE EF as
      nibbles. */
  const MockDigest: seq<bv8> := [0xD, 0xE, 0xA, 0xD, 0xB, 0xE, 0xE, 0xF]
  const MockSignature: seq<bv8> := [0xD, 0xE, 0xA, 0xD, 0xB, 0xE, 0xE, 0xF]

  /** memcpy of `src` to the start of `dst`. */
  method MemCpy(dst: array<bv8>, src: seq<bv8>)
    requires |src| <= dst.Length
    modifies dst
    ensures dst[..|src|] == src
    ensures dst[|src|..] == old(dst[|src|..])
  {
    var i := 0;
    while i < |src|
      invariant 0 <= i <= |src|
      invariant dst[..i] == src[..i]
      invariant dst[|src|..] == old(dst[|src|..])
    {
      dst[i] := src[i];
      i := i + 1;
    }
  }

  /** mock_C_Digest: the fixed digest in the first eight bytes of the
      caller's buffer, the rest untouched, length eight, CKR_OK. */
  method MockCDigest(session: nat, data: seq<bv8>, digest: array<bv8>) returns (rv: CkRv, digestLen: nat)
    requires digest.Length >= |MockDigest|
    modifies digest
    ensures rv == CkrOk && digestLen == |MockDigest| == 8
    ensures digest[..digestLen] == MockDigest
    ensures digest[digestLen..] == old(digest[digestLen..])
  {
    MemCpy(digest, MockDigest);
    digestLen := |MockDigest|;
    rv := CkrOk;
  }

  /** mock_C_Sign: the fixed signature in the first eight bytes of the
      caller's buffer, the rest untouched, length eight, CKR_OK. */
  method MockCSign(session: nat, data: seq<bv8>, signature: array<bv8>) returns (rv: CkRv, signatureLen: nat)
    requires signature.Length >= |MockSignature|
    modifies signature
    ensures rv == CkrOk && signatureLen == |MockSignature| == 8
    ensures signature[..signatureLen] == MockSignature
    ensures signature[signatureLen..] == old(signature[signatureLen..])
  {
    MemCpy(signature, MockSignature);
    signatureLen := |MockSignature|;
    rv := CkrOk;
  }

  /** The PKCS#11 functions a symbol table entry can point at. */
  datatype Pkcs11Function = NoFunction | MockCDigestInitFn | MockCDigestFn | MockCSignInitFn | MockCSignFn

  /** The four entries of the symbol table the mocks fill. */
  datatype SymbolTable = SymbolTable(cDigestInit: Pkcs11Function, cDigest: Pkcs11Function,
                                     cSignInit: Pkcs11Function, cSign: Pkcs11Function)

  datatype HsmModule = HsmModule(name: string, sym: SymbolTable)

  datatype HsmSession = HsmSession(session: nat, hsmModule: HsmModule)

  /** The HSM context: its session count and its sessions. */
  class HsmContext {
    var sessionCount: nat
    var sessions: seq<HsmSession>

    constructor ()
      ensures sessionCount == 0 && sessions == []
    {
      sessionCount := 0;
      sessions := [];
    }
  }

  /** setup_mock_hsm: a new context with one session, session handle 0,
      whose module is named MOCK_MODULE and whose symbol table points the
      digest and sign entries at the mocks. */
  method SetupMockHsm() returns (ctx: HsmContext)
    ensures fresh(ctx)
    ensures ctx.sessionCount == 1 && |ctx.sessions| == 1
    ensures ctx.sessions[0].session == 0 && ctx.sessions[0].hsmModule.name == MockHsmModuleName
    ensures ctx.sessions[0].hsmModule.sym ==
      SymbolTable(MockCDigestInitFn, MockCDigestFn, MockCSignInitFn, MockCSignFn)
  {
    var mockSymTable := SymbolTable(NoFunction, NoFunction, NoFunction, NoFunction);
    mockSymTable := mockSymTable.(cDigestInit := MockCDigestInitFn);
    mockSymTable := mockSymTable.(cDigest := MockCDigestFn);
    mockSymTable := mockSymTable.(cSignInit := MockCSignInitFn);
    mockSymTable := mockSymTable.(cSign := MockCSignFn);
    ctx := new HsmContext();
    ctx.sessionCount := 1;
    ctx.sessions := [HsmSession(0, HsmModule(MockHsmModuleName, mockSymTable))];
  }
}
