/** The adapter-address operations: the bounded, first-match scan of the
    network-adapter class key that `set_mac_address` and `reset_mac_address`
    perform, and the address panel's apply flow that guards the first of
    them.

    The registry is a value here: the class key with its numbered subkeys in
    enumeration order. Each operation takes it and returns the registry as
    it leaves it, together with the `netsh` runs it issues and the
    (success, message) pair it reports. */
module AdapterRegistry {
  import opened Wrappers
  import opened PyText
  import opened MacAddress

  /** The scan tries subkey indices 0 to 99 only (`for i in range(100)`). */
  const ScanLimit: nat := 100

  /** One numbered subkey of the network-adapter class key, as the scan sees
      it: whether `OpenKey(..., KEY_ALL_ACCESS)` succeeds on it, its
      `DriverDesc` and `NetworkAddress` values when set, and whether writing
      or deleting a value under it succeeds. */
  datatype Subkey = Subkey(
    opens: bool,
    driverDesc: Option<string>,
    networkAddress: Option<string>,
    writable: bool)

  /** The class key `{4d36e972-...}`: whether opening it succeeds (and the
      error text when it does not) and its subkeys in enumeration order;
      `EnumKey(key, i)` fails for every `i` past the last one. */
  datatype ClassKey = ClassKey(opens: bool, openError: string, subkeys: seq<Subkey>)

  /** One `netsh interface set interface <name> disable|enable` run. */
  datatype NetshCommand = SetInterface(adapterName: string, enable: bool)

  /** The (success, message) pair every mutator returns. */
  datatype Outcome = Outcome(success: bool, message: string)

  /** Everything an operation does: what it reports, the registry it leaves,
      and the `netsh` runs it issues, in order. */
  datatype ScanEffect = ScanEffect(outcome: Outcome, key: ClassKey, netsh: seq<NetshCommand>)

  /** The adapter cycle that applies a changed address: disable, then
      enable (with a one-second sleep between them that is not modelled). */
  function Cycle(adapterName: string): seq<NetshCommand> {
    [SetInterface(adapterName, false), SetInterface(adapterName, true)]
  }

  /** `adapter_name.lower() in desc.lower()` for a subkey whose `DriverDesc`
      can be read; a subkey without one never matches. */
  predicate DescribesAdapter(k: Subkey, adapterName: string) {
    k.driverDesc.Some? && Contains(Lower(k.driverDesc.value), Lower(adapterName))
  }

  /** Whether the scan ends its work at subkey `k`: it describes the adapter
      and, when the operation writes a value (`needWrite`), the write
      succeeds. A failed write is swallowed and the scan goes on. */
  predicate Selects(k: Subkey, adapterName: string, needWrite: bool) {
    DescribesAdapter(k, adapterName) && (needWrite ==> k.writable)
  }

  /** Where the scan started at `i` stops trying: at index 100, past the
      last subkey, or at the first subkey that cannot be opened. */
  function ScanEndFrom(keys: seq<Subkey>, i: nat): (n: nat)
    requires i <= ScanLimit && i <= |keys|
    ensures i <= n <= ScanLimit && n <= |keys|
    ensures forall j :: i <= j < n ==> keys[j].opens
    ensures n < ScanLimit && n < |keys| ==> !keys[n].opens
    decreases ScanLimit - i
  {
    if i == ScanLimit || i == |keys| || !keys[i].opens then i else ScanEndFrom(keys, i + 1)
  }

  /** The number of subkeys the scan tries. */
  function ScanEnd(keys: seq<Subkey>): nat {
    ScanEndFrom(keys, 0)
  }

  /** The first index in `i .. end - 1` whose subkey the scan selects. */
  function FirstFrom(keys: seq<Subkey>, adapterName: string, needWrite: bool, i: nat, end: nat): (r: Option<nat>)
    requires i <= end <= |keys|
    ensures r.Some? ==> i <= r.value < end && Selects(keys[r.value], adapterName, needWrite)
    ensures r.Some? ==> forall j :: i <= j < r.value ==> !Selects(keys[j], adapterName, needWrite)
    ensures r.None? ==> forall j :: i <= j < end ==> !Selects(keys[j], adapterName, needWrite)
    decreases end - i
  {
    if i == end then None
    else if Selects(keys[i], adapterName, needWrite) then Some(i)
    else FirstFrom(keys, adapterName, needWrite, i + 1, end)
  }

  /** The subkey `set_mac_address` writes: the first tried one that
      describes the adapter and accepts the write. */
  function SetTarget(keys: seq<Subkey>, adapterName: string): Option<nat> {
    FirstFrom(keys, adapterName, true, 0, ScanEnd(keys))
  }

  /** The subkey `reset_mac_address` acts on: the first tried one that
      describes the adapter. */
  function ResetTarget(keys: seq<Subkey>, adapterName: string): Option<nat> {
    FirstFrom(keys, adapterName, false, 0, ScanEnd(keys))
  }

  /** What `set_mac_address(adapter_name, new_mac)` does: it succeeds
      exactly when the class key opens and the scan finds a subkey to write;
      a success cycles the adapter, a failure leaves the registry as it was
      and runs no `netsh`. */
  function SetMacEffect(key: ClassKey, adapterName: string, newMac: string): (r: ScanEffect)
    ensures r.outcome.success <==> key.opens && SetTarget(key.subkeys, adapterName).Some?
    ensures r.outcome.success ==> r.netsh == Cycle(adapterName) && |r.key.subkeys| == |key.subkeys|
    ensures !r.outcome.success ==> r.key == key && r.netsh == []
  {
    if !key.opens then
      ScanEffect(Outcome(false, "Error: " + key.openError), key, [])
    else
      match SetTarget(key.subkeys, adapterName)
      case None =>
        ScanEffect(Outcome(false, "Adapter not found in registry"), key, [])
      case Some(i) =>
        var sub := key.subkeys[i];
        ScanEffect(
          Outcome(true, "MAC address changed to " + newMac + ". Adapter restarted."),
          key.(subkeys := key.subkeys[i := sub.(networkAddress := Some(Normalise(newMac)))]),
          Cycle(adapterName))
  }

  /** What `reset_mac_address(adapter_name)` does. Deleting the override is
      attempted and any failure of it (the value is absent, or the delete is
      refused) is swallowed; the operation still reports success. It
      succeeds exactly when the class key opens and the scan finds a subkey
      describing the adapter; a failure changes nothing. */
  function ResetMacEffect(key: ClassKey, adapterName: string): (r: ScanEffect)
    ensures r.outcome.success <==> key.opens && ResetTarget(key.subkeys, adapterName).Some?
    ensures r.outcome.success ==> r.netsh == Cycle(adapterName) && |r.key.subkeys| == |key.subkeys|
    ensures !r.outcome.success ==> r.key == key && r.netsh == []
  {
    if !key.opens then
      ScanEffect(Outcome(false, "Error: " + key.openError), key, [])
    else
      match ResetTarget(key.subkeys, adapterName)
      case None =>
        ScanEffect(Outcome(false, "Adapter not found"), key, [])
      case Some(i) =>
        var sub := key.subkeys[i];
        ScanEffect(
          Outcome(true, "MAC address reset to original."),
          key.(subkeys := key.subkeys[i := if sub.writable then sub.(networkAddress := None) else sub]),
          Cycle(adapterName))
  }

  /** `set_mac_address`: the bounded scan, stopping at the first subkey that
      describes the adapter and takes the normalised address. */
  method SetMacAddress(key: ClassKey, adapterName: string, newMac: string)
    returns (res: Outcome, key': ClassKey, netsh: seq<NetshCommand>)
    ensures ScanEffect(res, key', netsh) == SetMacEffect(key, adapterName, newMac)
  {
    var newMacClean := Normalise(newMac);
    if !key.opens {
      return Outcome(false, "Error: " + key.openError), key, [];
    }
    var keys := key.subkeys;
    var i := 0;
    while i < ScanLimit
      invariant i <= ScanEnd(keys)
      invariant forall j :: 0 <= j < i ==> !Selects(keys[j], adapterName, true)
    {
      if i >= |keys| || !keys[i].opens {
        break;  // EnumKey or OpenKey raised
      }
      var sub := keys[i];
      if sub.driverDesc.Some? && Contains(Lower(sub.driverDesc.value), Lower(adapterName)) {
        if sub.writable {
          key' := key.(subkeys := keys[i := sub.(networkAddress := Some(newMacClean))]);
          return Outcome(true, "MAC address changed to " + newMac + ". Adapter restarted."), key', Cycle(adapterName);
        }
        // SetValueEx raised: swallowed, the scan goes on
      }
      i := i + 1;
    }
    return Outcome(false, "Adapter not found in registry"), key, [];
  }

  /** `reset_mac_address`: the same scan, stopping at the first subkey that
      describes the adapter and deleting its override there. */
  method ResetMacAddress(key: ClassKey, adapterName: string)
    returns (res: Outcome, key': ClassKey, netsh: seq<NetshCommand>)
    ensures ScanEffect(res, key', netsh) == ResetMacEffect(key, adapterName)
  {
    if !key.opens {
      return Outcome(false, "Error: " + key.openError), key, [];
    }
    var keys := key.subkeys;
    var i := 0;
    while i < ScanLimit
      invariant i <= ScanEnd(keys)
      invariant forall j :: 0 <= j < i ==> !Selects(keys[j], adapterName, false)
    {
      if i >= |keys| || !keys[i].opens {
        break;  // EnumKey or OpenKey raised
      }
      var sub := keys[i];
      if sub.driverDesc.Some? && Contains(Lower(sub.driverDesc.value), Lower(adapterName)) {
        var sub' := sub;
        if sub.writable {
          sub' := sub.(networkAddress := None);
        }
        // a failed DeleteValue, including a missing value, is swallowed
        key' := key.(subkeys := keys[i := sub']);
        return Outcome(true, "MAC address reset to original."), key', Cycle(adapterName);
      }
      i := i + 1;
    }
    return Outcome(false, "Adapter not found"), key, [];
  }

  // ---------------------------------------------------------------------
  // Properties of the scan.
  // ---------------------------------------------------------------------

  /** A set succeeds exactly when the class key opens and some tried subkey
      describes the adapter and accepts the write. It then writes the
      normalised address into the first such subkey, at an index below 100
      after trying every earlier index, changes nothing else of the
      registry and cycles the adapter. A set that fails leaves the registry
      as it was and runs no `netsh`. */
  lemma SetMacWritesOnlyTarget(key: ClassKey, adapterName: string, newMac: string)
    ensures var e := SetMacEffect(key, adapterName, newMac);
      && |e.key.subkeys| == |key.subkeys|
      && e.key.opens == key.opens && e.key.openError == key.openError
      && (e.outcome.success <==> key.opens && SetTarget(key.subkeys, adapterName).Some?)
      && (!e.outcome.success ==> e.key == key && e.netsh == [])
      && (e.outcome.success ==>
            var i := SetTarget(key.subkeys, adapterName).value;
            && i < ScanLimit && i < |key.subkeys|
            && DescribesAdapter(key.subkeys[i], adapterName) && key.subkeys[i].writable
            && (forall j :: 0 <= j <= i ==> key.subkeys[j].opens)
            && (forall j :: 0 <= j < i ==> !Selects(key.subkeys[j], adapterName, true))
            && e.key.subkeys[i] == key.subkeys[i].(networkAddress := Some(Normalise(newMac)))
            && (forall j :: 0 <= j < |key.subkeys| && j != i ==> e.key.subkeys[j] == key.subkeys[j])
            && e.netsh == Cycle(adapterName))
  {
    var e := SetMacEffect(key, adapterName, newMac);
    if e.outcome.success {
      var i := SetTarget(key.subkeys, adapterName).value;
      assert 0 <= i < ScanEnd(key.subkeys);
    }
  }

  /** A reset that finds the adapter succeeds whether or not an override was
      set; it changes at most the override of the first tried subkey that
      describes the adapter, and nothing else of the registry. */
  lemma ResetMacTouchesOnlyTarget(key: ClassKey, adapterName: string)
    ensures var e := ResetMacEffect(key, adapterName);
      && |e.key.subkeys| == |key.subkeys|
      && e.key.opens == key.opens && e.key.openError == key.openError
      && (e.outcome.success <==> key.opens && ResetTarget(key.subkeys, adapterName).Some?)
      && (!e.outcome.success ==> e.key == key && e.netsh == [])
      && (e.outcome.success ==>
            var i := ResetTarget(key.subkeys, adapterName).value;
            && i < ScanLimit && i < |key.subkeys|
            && DescribesAdapter(key.subkeys[i], adapterName)
            && (forall j :: 0 <= j <= i ==> key.subkeys[j].opens)
            && (forall j :: 0 <= j < i ==> !DescribesAdapter(key.subkeys[j], adapterName))
            && e.key.subkeys[i] == key.subkeys[i].(networkAddress :=
                 if key.subkeys[i].writable then None else key.subkeys[i].networkAddress)
            && (forall j :: 0 <= j < |key.subkeys| && j != i ==> e.key.subkeys[j] == key.subkeys[j])
            && e.netsh == Cycle(adapterName))
  {
    var e := ResetMacEffect(key, adapterName);
    if e.outcome.success {
      var i := ResetTarget(key.subkeys, adapterName).value;
      assert 0 <= i < ScanEnd(key.subkeys);
    }
  }

  /** Two registries that differ only in their override values are scanned
      alike. */
  ghost predicate SameShape(a: seq<Subkey>, b: seq<Subkey>) {
    |a| == |b| &&
    forall j :: 0 <= j < |a| ==>
      a[j].opens == b[j].opens && a[j].driverDesc == b[j].driverDesc && a[j].writable == b[j].writable
  }

  lemma {:induction false} ScanEndSameShape(a: seq<Subkey>, b: seq<Subkey>, i: nat)
    requires SameShape(a, b) && i <= ScanLimit && i <= |a|
    ensures ScanEndFrom(a, i) == ScanEndFrom(b, i)
    decreases ScanLimit - i
  {
    if i < ScanLimit && i < |a| && a[i].opens {
      ScanEndSameShape(a, b, i + 1);
    }
  }

  lemma {:induction false} FirstFromSameShape(a: seq<Subkey>, b: seq<Subkey>, adapterName: string, needWrite: bool, i: nat, end: nat)
    requires SameShape(a, b) && i <= end <= |a|
    ensures FirstFrom(a, adapterName, needWrite, i, end) == FirstFrom(b, adapterName, needWrite, i, end)
    decreases end - i
  {
    if i < end {
      assert Selects(a[i], adapterName, needWrite) == Selects(b[i], adapterName, needWrite);
      FirstFromSameShape(a, b, adapterName, needWrite, i + 1, end);
    }
  }

  /** Changing override values does not change which subkey a scan picks. */
  lemma TargetsSameShape(a: seq<Subkey>, b: seq<Subkey>, adapterName: string)
    requires SameShape(a, b)
    ensures SetTarget(a, adapterName) == SetTarget(b, adapterName)
    ensures ResetTarget(a, adapterName) == ResetTarget(b, adapterName)
  {
    ScanEndSameShape(a, b, 0);
    FirstFromSameShape(a, b, adapterName, true, 0, ScanEnd(a));
    FirstFromSameShape(a, b, adapterName, false, 0, ScanEnd(a));
  }

  /** Resetting twice leaves the registry as resetting once does. */
  lemma ResetMacIdempotent(key: ClassKey, adapterName: string)
    ensures var once := ResetMacEffect(key, adapterName);
      ResetMacEffect(once.key, adapterName).key == once.key
  {
    var once := ResetMacEffect(key, adapterName);
    assert SameShape(key.subkeys, once.key.subkeys);
    TargetsSameShape(key.subkeys, once.key.subkeys, adapterName);
  }

  /** When the first subkey describing the adapter accepts writes and had no
      override, setting an address and then resetting restores the registry
      exactly, and the reset reports success. */
  lemma SetThenResetRestores(key: ClassKey, adapterName: string, newMac: string)
    requires key.opens
    requires ResetTarget(key.subkeys, adapterName).Some?
    requires var i := ResetTarget(key.subkeys, adapterName).value;
      key.subkeys[i].writable && key.subkeys[i].networkAddress.None?
    ensures var afterSet := SetMacEffect(key, adapterName, newMac);
      && afterSet.outcome.success
      && ResetMacEffect(afterSet.key, adapterName).outcome.success
      && ResetMacEffect(afterSet.key, adapterName).key == key
  {
    var keys := key.subkeys;
    var i := ResetTarget(keys, adapterName).value;
    var end := ScanEnd(keys);
    var t := FirstFrom(keys, adapterName, true, 0, end);
    assert Selects(keys[i], adapterName, true);
    assert t.Some? && t.value == i;
    var afterSet := SetMacEffect(key, adapterName, newMac);
    assert SameShape(keys, afterSet.key.subkeys);
    TargetsSameShape(keys, afterSet.key.subkeys, adapterName);
    assert afterSet.key.subkeys[i := afterSet.key.subkeys[i].(networkAddress := None)] == keys;
  }

  // ---------------------------------------------------------------------
  // The address panel's apply flow.
  // ---------------------------------------------------------------------

  /** `apply_mac`: refuse without administrator rights, strip the entry,
      refuse an empty or malformed address, and only then call
      `set_mac_address`; `status` is the text the panel shows. */
  method ApplyMac(isAdmin: bool, adapterName: string, entry: string, key: ClassKey)
    returns (status: string, key': ClassKey, netsh: seq<NetshCommand>)
    ensures !isAdmin ==> status == "Administrator privileges required!"
    ensures isAdmin && Strip(entry) == "" ==> status == "Please enter a MAC address"
    ensures isAdmin && Strip(entry) != "" && !WellFormedMac(Strip(entry)) ==>
      status == "Invalid MAC format. Use XX-XX-XX-XX-XX-XX"
    ensures !isAdmin || !WellFormedMac(Strip(entry)) ==> key' == key && netsh == []
    ensures isAdmin && WellFormedMac(Strip(entry)) ==>
      ScanEffect(Outcome(SetMacEffect(key, adapterName, Strip(entry)).outcome.success, status), key', netsh)
        == SetMacEffect(key, adapterName, Strip(entry))
    ensures |key'.subkeys| == |key.subkeys|
    ensures forall j :: 0 <= j < |key.subkeys| && key'.subkeys[j] != key.subkeys[j] ==>
      && key'.subkeys[j].networkAddress.Some?
      && |key'.subkeys[j].networkAddress.value| == 12
      && forall k :: 0 <= k < 12 ==> IsHexDigit(key'.subkeys[j].networkAddress.value[k])
  {
    if !isAdmin {
      return "Administrator privileges required!", key, [];
    }
    var newMac := Strip(entry);
    if newMac == "" {
      return "Please enter a MAC address", key, [];
    }
    ValidatorOnTrimmed(newMac);
    if !MacPatternMatches(newMac) {
      return "Invalid MAC format. Use XX-XX-XX-XX-XX-XX", key, [];
    }
    var res;
    res, key', netsh := SetMacAddress(key, adapterName, newMac);
    status := res.message;
    SetMacWritesOnlyTarget(key, adapterName, newMac);
    NormaliseWellFormed(newMac);
  }
}
