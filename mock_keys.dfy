/** The mock key registries of the two test_framework.c copies. Each mock
    key carries an HSM key handle whose private-key field holds the key's
    own index in the registry, so that the HSM mocks can find the key again.
    The framework copy allocates a fixed table of two slots; the signer copy
    grows its table by one slot per key. Key generation is not modelled: the
    generated key material is a parameter. */
module MockKeys {
  import opened Wrappers

  /** The module name every mock HSM key and the mock HSM session carry. */
  const MockHsmModuleName: string := "MOCK_MODULE"
  /** LDNS_RSASHA256, the algorithm of every mock key. */
  const RsaSha256: nat := 8
  /** LDNS_KEY_ZONE_KEY, the flags every mock key is configured with. */
  const LdnsKeyZoneKey: nat := 256
  /** The number of slots e2e_prepare_for_keys allocates. */
  const PreparedSlots: nat := 2

  /** An HSM key handle: its module name and its private-key field. */
  datatype HsmKey = HsmKey(moduleName: string, privateKey: int)

  /** The DNSKEY record of a mock key: the zone apex as owner, and the
      public part of the generated key. */
  datatype Dnskey = Dnskey(owner: string, keyMaterial: nat)

  /** One registry entry (test_keys_type). */
  datatype MockKey = MockKey(locator: string, hsmKey: HsmKey, dnskey: Dnskey)

  /** A zeroed entry, as calloc leaves it. */
  const ZeroKey: MockKey := MockKey("", HsmKey("", 0), Dnskey("", 0))

  /** The key settings pushed onto the zone's signer configuration. */
  datatype KeyConfig = KeyConfig(locator: string, algorithm: nat, flags: nat, publish: bool, ksk: bool, zsk: bool)

  /** The entry e2e_init_mock_key builds at index `idx`. */
  function NewMockKey(locator: string, apex: string, idx: nat, keyMaterial: nat): (k: MockKey)
    ensures k.locator == locator && k.dnskey.owner == apex
    ensures k.hsmKey.moduleName == MockHsmModuleName && k.hsmKey.privateKey == idx
  {
    MockKey(locator, HsmKey(MockHsmModuleName, idx), Dnskey(apex, keyMaterial))
  }

  /** The configuration e2e_init_mock_key pushes for a key: RSA/SHA-256,
      a zone key, published, with the given roles. */
  function NewKeyConfig(locator: string, isKsk: bool, isZsk: bool): (c: KeyConfig)
    ensures c.locator == locator && c.publish && c.ksk == isKsk && c.zsk == isZsk
    ensures c.algorithm == RsaSha256 && c.flags == LdnsKeyZoneKey
  {
    KeyConfig(locator, RsaSha256, LdnsKeyZoneKey, true, isKsk, isZsk)
  }

  /** The registry invariant: every entry's handle names the mock module and
      holds the entry's own index. */
  ghost predicate IndexedKeys(keys: seq<MockKey>)
  {
    forall i :: 0 <= i < |keys| ==> keys[i].hsmKey == HsmKey(MockHsmModuleName, i)
  }

  /** Appending the entry built for the next index keeps the invariant. */
  lemma AppendKeepsIndexed(keys: seq<MockKey>, locator: string, apex: string, keyMaterial: nat)
    requires IndexedKeys(keys)
    ensures IndexedKeys(keys + [NewMockKey(locator, apex, |keys|, keyMaterial)])
  {
  }

  /** The zone a mock key is created for: its apex and its signer
      configuration's key list. */
  class Zone {
    var apex: string
    var signconfKeys: seq<KeyConfig>

    constructor (apex: string)
      ensures this.apex == apex && signconfKeys == []
    {
      this.apex := apex;
      signconfKeys := [];
    }
  }

  /** The framework registry: a table of fixed capacity and the number of
      slots in use. Before e2e_prepare_for_keys the table is NULL, modelled
      as a table without slots; `released` records that teardown has freed
      it. */
  class FixedKeyRegistry {
    var keys: array<MockKey>
    var count: nat
    var released: bool

    ghost predicate Valid()
      reads this, keys
    {
      count <= keys.Length && IndexedKeys(keys[..count])
    }

    /** The entries in use. */
    function Keys(): (ks: seq<MockKey>)
      requires count <= keys.Length
      reads this, keys
      ensures |ks| == count
    {
      keys[..count]
    }

    /** The static initial state: no table and no keys. */
    constructor ()
      ensures Valid() && count == 0 && keys.Length == 0 && !released
    {
      keys := new MockKey[0];
      count := 0;
      released := false;
    }

    /** e2e_prepare_for_keys: a fresh zeroed table of two slots, whatever
        number of keys is asked for; the count is left as it was. */
    method PrepareForKeys(numKeys: int)
      modifies this
      ensures fresh(keys) && keys.Length == PreparedSlots
      ensures forall i :: 0 <= i < keys.Length ==> keys[i] == ZeroKey
      ensures count == old(count) && !released
      ensures old(count) == 0 ==> Valid()
    {
      keys := new MockKey[PreparedSlots](_ => ZeroKey);
      released := false;
    }

    /** e2e_init_mock_key: the entry at the old count gets the copied
        locator, a handle naming the mock module whose private key is that
        index, and the DNSKEY owned by the zone apex; the count grows by one
        and the key's configuration is pushed onto the zone. The table must
        have a free slot and must not have been released. */
    method InitMockKey(locator: string, zone: Zone, isKsk: bool, isZsk: bool, keyMaterial: nat)
      requires Valid() && count < keys.Length && !released
      modifies this, keys, zone
      ensures Valid() && !released
      ensures keys == old(keys) && count == old(count) + 1
      ensures keys[..] == old(keys[..])[old(count) := NewMockKey(locator, old(zone.apex), old(count), keyMaterial)]
      ensures Keys() == old(Keys()) + [NewMockKey(locator, old(zone.apex), old(count), keyMaterial)]
      ensures zone.apex == old(zone.apex)
      ensures zone.signconfKeys == old(zone.signconfKeys) + [NewKeyConfig(locator, isKsk, isZsk)]
    {
      ghost var before := keys[..count];
      var newKeyIdx := count;
      count := count + 1;
      keys[newKeyIdx] := NewMockKey(locator, zone.apex, newKeyIdx, keyMaterial);
      zone.signconfKeys := zone.signconfKeys + [NewKeyConfig(locator, isKsk, isZsk)];
      assert keys[..count] == before + [keys[newKeyIdx]];
      AppendKeepsIndexed(before, locator, zone.apex, keyMaterial);
    }

    /** The key part of e2e_teardown: the table is released and the count
        returns to zero; the table must be prepared again before the next
        key is added. */
    method Teardown()
      modifies this
      ensures Valid() && count == 0 && keys == old(keys) && released
    {
      count := 0;
      released := true;
    }
  }

  /** The signer registry: a table grown by one slot for each key, and a
      flag recording that teardown has released it. */
  class GrowingKeyRegistry {
    var keys: seq<MockKey>
    var count: nat
    var released: bool

    ghost predicate Valid()
      reads this
    {
      count == |keys| && IndexedKeys(keys)
    }

    /** The static initial state: no table and no keys. */
    constructor ()
      ensures Valid() && keys == [] && !released
    {
      keys := [];
      count := 0;
      released := false;
    }

    /** e2e_init_mock_key: the table grows by exactly one slot, whose index
        is the new count minus one, and that slot holds the copied locator,
        a handle naming the mock module with that index, and the DNSKEY
        owned by the zone apex. The table must not have been released. */
    method InitMockKey(locator: string, zone: Zone, isKsk: bool, isZsk: bool, keyMaterial: nat)
      requires Valid() && !released
      modifies this, zone
      ensures Valid() && !released
      ensures count == old(count) + 1
      ensures keys == old(keys) + [NewMockKey(locator, old(zone.apex), count - 1, keyMaterial)]
      ensures zone.apex == old(zone.apex)
      ensures zone.signconfKeys == old(zone.signconfKeys) + [NewKeyConfig(locator, isKsk, isZsk)]
    {
      count := count + 1;
      var newKeyIdx := count - 1;
      AppendKeepsIndexed(keys, locator, zone.apex, keyMaterial);
      keys := keys + [NewMockKey(locator, zone.apex, newKeyIdx, keyMaterial)];
      zone.signconfKeys := zone.signconfKeys + [NewKeyConfig(locator, isKsk, isZsk)];
    }

    /** The key part of e2e_teardown: the table is released and the count
        returns to zero. */
    method Teardown()
      modifies this
      ensures Valid() && count == 0 && keys == [] && released
    {
      keys := [];
      count := 0;
      released := true;
    }
  }
}
