/**
 * Client code that drives one manager through three scenarios, using only
 * the contracts of its methods: the first-seen RSSI is kept, connect then
 * disconnect leaves nothing connected, and the notification 00 00 00 FF 7F
 * plays the sample 32767.
 */
module Scenarios {
  import opened Wrappers
  import opened Gatt
  import opened Registry
  import opened Pcm
  import opened Manager

  /** A second advertisement from the same device, with a stronger signal, keeps the first RSSI. */
  method FirstSeenRssiKept(id: Uuid) {
    var m := new BluetoothManager();
    var friend := Peripheral(id, Some("Friend"));
    m.DidDiscover(friend, -60);
    assert multiset(m.discoveredPeripherals) == multiset{Discovered(friend, -60)};
    assert m.discoveredPeripherals == [Discovered(friend, -60)] by {
      assert Discovered(friend, -60) in m.discoveredPeripherals;
      assert |m.discoveredPeripherals| == |multiset(m.discoveredPeripherals)|;
    }
    assert HasIdentifier(m.discoveredPeripherals, id) by {
      assert m.discoveredPeripherals[0].peripheral.identifier == id;
    }
    m.DidDiscover(friend, -40);
    assert m.discoveredPeripherals == [Discovered(friend, -60)];
    m.DidDiscover(Peripheral(id, Some("friend")), -10);
    m.DidDiscover(Peripheral(id, None), -10);
    assert m.discoveredPeripherals == [Discovered(friend, -60)];
  }

  /** Connecting and then disconnecting a fresh manager leaves nothing connected. */
  method ConnectThenDisconnect(p: Peripheral) {
    var m := new BluetoothManager();
    var requests := m.Connect(p);
    assert m.IsConnected(p);
    requests := m.Disconnect(p);
    assert !m.IsConnected(p) && m.connectedPeripherals == {};
  }

  /** A three-byte header followed by FF 7F yields one frame holding the sample 32767; two bytes yield nothing. */
  method Notifications() {
    var m := new BluetoothManager();
    var requests := m.HandleAudioData([0x00, 0x01, 0x02]);
    assert requests == [] && m.audioData == [];
    requests := m.HandleAudioData([0x00, 0x00, 0x00, 0xFF, 0x7F]);
    assert [0x00, 0x00, 0x00, 0xFF, 0x7F][3..] == [0xFF, 0x7F];
    DecodeMaxSample();
    assert requests == [PlayAudio([0x7FFF])] && m.audioData == [];
  }
}
