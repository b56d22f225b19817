/**
 * `BluetoothManager`: the central-manager and peripheral delegate that keeps
 * the device registry and the connection set, resolves the audio service,
 * and turns notifications into decoded sample frames. Callbacks are
 * delivered one at a time; each returns the framework calls it issues.
 */
module Manager {
  import opened Wrappers
  import opened Bytes
  import opened Gatt
  import opened Registry
  import opened Resolver
  import opened Pcm

  /** Bytes of per-packet header in front of every notification's payload. */
  const HEADER_SIZE: nat := 3

  class BluetoothManager {
    var discoveredPeripherals: seq<Discovered>
    var connectedPeripherals: set<Peripheral>
    var audioCharacteristic: Option<Characteristic>
    var audioData: seq<uint8>

    /**
     * Between callbacks the registry is sorted, deduplicated and holds only
     * target devices, and the accumulator is empty (every notification that
     * fills it also flushes it).
     */
    ghost predicate Valid()
      reads this
    {
      RegistryInvariant(discoveredPeripherals) && audioData == []
    }

    constructor ()
      ensures Valid()
      ensures discoveredPeripherals == [] && connectedPeripherals == {}
      ensures audioCharacteristic == None && audioData == []
    {
      discoveredPeripherals := [];
      connectedPeripherals := {};
      audioCharacteristic := None;
      audioData := [];
    }

    /** `centralManagerDidUpdateState`: scanning with no service filter starts only when the radio is powered on. */
    method DidUpdateState(state: RadioState) returns (requests: seq<Request>)
      ensures |requests| <= 1
      ensures requests != [] <==> state == PoweredOn
      ensures forall k :: 0 <= k < |requests| ==> requests[k] == ScanForPeripherals
    {
      if state == PoweredOn {
        requests := [ScanForPeripherals];
      } else {
        requests := [];
      }
    }

    function IsConnected(p: Peripheral): (connected: bool)
      reads this
      ensures connected <==> p in connectedPeripherals
    {
      p in connectedPeripherals
    }

    /**
     * An advertisement. Only a device named exactly `TARGET_NAME` whose
     * identifier is not yet registered is added, and the list is re-sorted;
     * a known identifier keeps its first-seen RSSI.
     */
    method DidDiscover(p: Peripheral, rssi: int)
      modifies this`discoveredPeripherals
      ensures old(Valid()) ==> Valid()
      ensures !IsTarget(p) || HasIdentifier(old(discoveredPeripherals), p.identifier)
        ==> discoveredPeripherals == old(discoveredPeripherals)
      ensures IsTarget(p) && !HasIdentifier(old(discoveredPeripherals), p.identifier)
        ==> && SortedByRssi(discoveredPeripherals)
            && multiset(discoveredPeripherals) == multiset(old(discoveredPeripherals)) + multiset{Discovered(p, rssi)}
    {
      if p.name.None? || p.name.value != TARGET_NAME {
        return;
      }
      if !HasIdentifier(discoveredPeripherals, p.identifier) {
        var appended := discoveredPeripherals + [Discovered(p, rssi)];
        var a := new Discovered[|appended|](k requires 0 <= k < |appended| => appended[k]);
        assert a[..] == appended;
        SortByRssi(a);
        discoveredPeripherals := a[..];
        if old(Valid()) {
          AppendNewKeepsDistinct(old(discoveredPeripherals), Discovered(p, rssi));
          PermutationKeepsDistinct(appended, discoveredPeripherals);
          forall k | 0 <= k < |discoveredPeripherals|
            ensures IsTarget(discoveredPeripherals[k].peripheral)
          {
            assert discoveredPeripherals[k] in multiset(appended);
          }
        }
      }
    }

    /** The view's reset on appearing: `discoveredPeripherals.removeAll()`. */
    method ClearDiscovered()
      modifies this`discoveredPeripherals
      ensures old(Valid()) ==> Valid()
      ensures discoveredPeripherals == []
    {
      discoveredPeripherals := [];
    }

    /** `connect(to:)`: asks the central manager to connect and records the peripheral at once. */
    method Connect(p: Peripheral) returns (requests: seq<Request>)
      modifies this`connectedPeripherals
      ensures requests == [ConnectPeripheral(p)]
      ensures connectedPeripherals == Inserted(old(connectedPeripherals), p)
      ensures IsConnected(p)
      ensures forall q :: q != p ==> IsConnected(q) == old(IsConnected(q))
    {
      requests := [ConnectPeripheral(p)];
      connectedPeripherals := connectedPeripherals + {p};
    }

    /** `disconnect(from:)`: asks the central manager to cancel and forgets the peripheral at once. */
    method Disconnect(p: Peripheral) returns (requests: seq<Request>)
      modifies this`connectedPeripherals
      ensures requests == [CancelPeripheralConnection(p)]
      ensures connectedPeripherals == Removed(old(connectedPeripherals), p)
      ensures !IsConnected(p)
      ensures forall q :: q != p ==> IsConnected(q) == old(IsConnected(q))
    {
      requests := [CancelPeripheralConnection(p)];
      connectedPeripherals := connectedPeripherals - {p};
    }

    /** `centralManager(_:didConnect:)`: discovers all services of the peripheral. */
    method DidConnect(p: Peripheral) returns (requests: seq<Request>)
      ensures requests == [DiscoverServices(p)]
    {
      requests := [DiscoverServices(p)];
    }

    /** `peripheral(_:didDiscoverServices:)`. */
    method DidDiscoverServices(p: Peripheral, services: Option<seq<Service>>, error: Option<LinkError>)
      returns (requests: seq<Request>)
      ensures requests == CharacteristicDiscoveryRequests(p, error, services)
    {
      requests := [];
      if error.Some? {
        return;
      }
      if services.None? {
        return;
      }
      var list := services.value;
      for i := 0 to |list|
        invariant requests == CharacteristicDiscoveryRequests(p, None, Some(list[..i]))
      {
        CharacteristicDiscoveryStep(p, list, i);
        if list[i].uuid == SERVICE_UUID {
          requests := requests + [DiscoverCharacteristics(p, list[i])];
        }
      }
      assert list[..|list|] == list;
    }

    /** `peripheral(_:didDiscoverCharacteristicsFor:error:)`; remembers the last audio characteristic seen. */
    method DidDiscoverCharacteristics(p: Peripheral, service: Service, characteristics: Option<seq<Characteristic>>,
                                      error: Option<LinkError>)
      returns (requests: seq<Request>)
      modifies this`audioCharacteristic
      ensures requests == NotifyRequests(p, error, characteristics)
      ensures audioCharacteristic == AudioCharacteristicAfter(old(audioCharacteristic), error, characteristics)
    {
      requests := [];
      if error.Some? {
        return;
      }
      if characteristics.None? {
        return;
      }
      var list := characteristics.value;
      for i := 0 to |list|
        invariant requests == NotifyRequests(p, None, Some(list[..i]))
        invariant audioCharacteristic == AudioCharacteristicAfter(old(audioCharacteristic), None, Some(list[..i]))
      {
        NotifyStep(p, old(audioCharacteristic), list, i);
        if list[i].uuid == CHARACTERISTIC_UUID {
          audioCharacteristic := Some(list[i]);
          requests := requests + [SetNotifyValue(p, true, list[i])];
        }
      }
      assert list[..|list|] == list;
    }

    /** `peripheral(_:didUpdateValueFor:error:)`: a value without an error goes to the reassembler. */
    method DidUpdateValue(characteristic: Characteristic, value: Option<seq<uint8>>, error: Option<LinkError>)
      returns (requests: seq<Request>)
      modifies this`audioData
      ensures old(Valid()) ==> Valid()
      ensures error.Some? || value.None? || |value.value| <= HEADER_SIZE ==> requests == [] && audioData == old(audioData)
      ensures error.None? && value.Some? && |value.value| > HEADER_SIZE
        ==> requests == [PlayAudio(Decode(old(audioData) + value.value[HEADER_SIZE..]))] && audioData == []
    {
      requests := [];
      if value.None? || error.Some? {
        return;
      }
      requests := HandleAudioData(value.value);
    }

    /**
     * `handleAudioData`: a notification no longer than the header is dropped;
     * otherwise the header is stripped, the payload appended, and the buffer
     * decoded and cleared.
     */
    method HandleAudioData(data: seq<uint8>) returns (requests: seq<Request>)
      modifies this`audioData
      ensures old(Valid()) ==> Valid()
      ensures |data| <= HEADER_SIZE ==> requests == [] && audioData == old(audioData)
      ensures |data| > HEADER_SIZE
        ==> requests == [PlayAudio(Decode(old(audioData) + data[HEADER_SIZE..]))] && audioData == []
    {
      if |data| <= HEADER_SIZE {
        return [];
      }
      var dataSlice := data[HEADER_SIZE..];
      audioData := audioData + dataSlice;
      requests := ProcessAudio();
    }

    /** `processAudio`: an empty buffer only warns; otherwise its samples are played and it is emptied. */
    method ProcessAudio() returns (requests: seq<Request>)
      modifies this`audioData
      ensures old(audioData) == [] ==> requests == [] && audioData == []
      ensures old(audioData) != [] ==> requests == [PlayAudio(Decode(old(audioData)))] && audioData == []
    {
      if |audioData| == 0 {
        return [];
      }
      var filteredAudioData := FilterAudioData(audioData);
      requests := [PlayAudio(filteredAudioData)];
      audioData := [];
    }
  }
}
