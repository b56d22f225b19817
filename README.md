# BluetoothManager: a Dafny model

This project models the logic of `BluetoothManager`, the Swift class behind a
BLE audio receiver. The class scans for a peripheral advertising as `"Friend"`,
keeps a deduplicated registry of discovered devices sorted by signal
strength, and records connections optimistically. It then resolves the audio
service and characteristic and enables notifications. Each notification has
its 3-byte header stripped, and the payload is decoded as little-endian
16-bit PCM samples for playback.

CoreBluetooth and AVFoundation are not executed. Each delegate callback or
command is a method of the class `Manager.BluetoothManager`. It returns the
framework calls it would issue, as `Gatt.Request` values (`ScanForPeripherals`,
`ConnectPeripheral`, `DiscoverCharacteristics`, `SetNotifyValue`,
`PlayAudio`, …). The class's fields are the source's fields:
`discoveredPeripherals` (a `seq`), `connectedPeripherals` (a `set`),
`audioCharacteristic` and the `audioData` byte buffer (a `seq`). Its
invariant `Valid()` says four things hold between callbacks:

- the registry is sorted by non-increasing RSSI;
- no two registry entries share an identifier;
- every registry entry is a `"Friend"`;
- the accumulator is empty.

Modules:

- `Bytes`: the `uint8` and `int16` ranges.
- `Gatt`: UUIDs (a `CBUUID` is its 128-bit value), peripherals, attributes, radio states and requests.
- `Registry`: registry entries, the sort and deduplication facts, and the connection-set updates.
- `Resolver`: the UUID filters of the two discovery handlers.
- `Pcm`: the sample decoder `filterAudioData`, with its inverse `Encode`.
- `Hex`: `Data.toHexString`, with its inverse `FromHexString`.
- `Manager`: the class.
- `Scenarios`: client methods that drive the class through three cases: a second advertisement keeps the first-seen RSSI, connect then disconnect leaves nothing connected, and the notification `00 00 00 FF 7F` plays the sample 32767.

Facts about the code that the model keeps:

- Swift's `sort` is not documented as stable, so no tie order is claimed.
- A single `audioData` buffer serves the whole manager.
- `audioCharacteristic` is not cleared by `disconnect`.
- A registry entry is `(peripheral, rssi)` only.
- `didUpdateValueFor` does not check which characteristic sent the value.

## Model

| member | source | states |
|---|---|---|
| Pcm.Int16LE | BluetoothScanApp/BluetoothScanApp/BluetoothManager.swift:160-165 | the sample read from bytes `lo, hi` has the 16-bit pattern `lo + 256*hi` and is negative exactly when `hi >= 0x80` (two's complement) |
| Pcm.Int16RoundTrip | BluetoothScanApp/BluetoothScanApp/BluetoothManager.swift:160-165 | every `Int16` is read back from its own two in-memory bytes |
| Pcm.BytePairRoundTrip | BluetoothScanApp/BluetoothScanApp/BluetoothManager.swift:160-165 | every byte pair is the in-memory form of the sample read from it |
| Pcm.Decode | BluetoothScanApp/BluetoothScanApp/BluetoothManager.swift:153-167 | decoding `n` bytes yields exactly `n / 2` samples |
| Pcm.DecodeAt | BluetoothScanApp/BluetoothScanApp/BluetoothManager.swift:160-165 | sample `i` is the signed little-endian value of bytes `2i` and `2i+1` |
| Pcm.DecodeDropsOddByte | BluetoothScanApp/BluetoothScanApp/BluetoothManager.swift:155-158 | an odd trailing byte is dropped: decoding the buffer equals decoding it without its last byte |
| Pcm.DecodeAppend | BluetoothScanApp/BluetoothScanApp/BluetoothManager.swift:138-148 | decoding an even-length buffer with more bytes appended is the first buffer's samples followed by the rest's |
| Pcm.DecodeEncode | BluetoothScanApp/BluetoothScanApp/BluetoothManager.swift:153-167 | decoding the in-memory bytes of a sample sequence gives the sequence back |
| Pcm.EncodeDecode | BluetoothScanApp/BluetoothScanApp/BluetoothManager.swift:153-167 | re-encoding the decoded samples gives the buffer minus its odd trailing byte, if any |
| Pcm.FilterAudioData | BluetoothScanApp/BluetoothScanApp/BluetoothManager.swift:153-168 | trimming to even length and reading `count / 2` samples computes exactly `Decode` of the buffer, with every read in bounds |
| Pcm.DecodeMaxSample | BluetoothScanApp/BluetoothScanApp/BluetoothManager.swift:160-165 | bytes `FF 7F` decode to 32767 |
| Hex.DigitValueOfHexDigit | BluetoothScanApp/BluetoothScanApp/BluetoothManager.swift:244 | every digit written for a nibble is in `0-9a-f` and reads back as that nibble |
| Hex.ByteToHex | BluetoothScanApp/BluetoothScanApp/BluetoothManager.swift:244 | `String(format: "%02hhx", b)`: two hex digits whose values, high then low, make up `b` |
| Hex.ToHexString | BluetoothScanApp/BluetoothScanApp/BluetoothManager.swift:243-245 | `k` bytes are written as exactly `2k` characters |
| Hex.ToHexStringAt | BluetoothScanApp/BluetoothScanApp/BluetoothManager.swift:244 | characters `2i` and `2i+1` are the high and then the low nibble of byte `i`, in lower-case hex |
| Hex.ToHexStringAlphabet | BluetoothScanApp/BluetoothScanApp/BluetoothManager.swift:244 | the output uses only `0-9` and `a-f` |
| Hex.ToHexStringAppend | BluetoothScanApp/BluetoothScanApp/BluetoothManager.swift:244 | `joined()` of the per-byte pieces: the string of a concatenation is the concatenation of the strings |
| Hex.HexRoundTrip | BluetoothScanApp/BluetoothScanApp/BluetoothManager.swift:243-245 | the hex string reads back to the original bytes, so no information is lost |
| Registry.IsTarget | BluetoothScanApp/BluetoothScanApp/BluetoothManager.swift:39 | the advertisement passes the name guard exactly when a name is present and equals `"Friend"` character for character (case-sensitive) |
| Registry.HasIdentifier | BluetoothScanApp/BluetoothScanApp/BluetoothManager.swift:41 | `contains(where:)` is true exactly when some entry's peripheral has the identifier |
| Registry.PermutationKeepsDistinct | BluetoothScanApp/BluetoothScanApp/BluetoothManager.swift:41-43 | re-sorting (any permutation) of a list with distinct identifiers keeps them distinct |
| Registry.AppendNewKeepsDistinct | BluetoothScanApp/BluetoothScanApp/BluetoothManager.swift:41-42 | appending an entry whose identifier the `contains(where:)` test did not find keeps identifiers distinct |
| Registry.SortByRssi | BluetoothScanApp/BluetoothScanApp/BluetoothManager.swift:43 | the in-place sort leaves the array in non-increasing RSSI order and a permutation of what it held |
| Registry.Inserted | BluetoothScanApp/BluetoothScanApp/BluetoothManager.swift:49 | after `insert(p)`, `p` is a member and every other peripheral's membership is unchanged |
| Registry.Removed | BluetoothScanApp/BluetoothScanApp/BluetoothManager.swift:54 | after `remove(p)`, `p` is not a member and every other peripheral's membership is unchanged |
| Registry.InsertIdempotent | BluetoothScanApp/BluetoothScanApp/BluetoothManager.swift:47-50 | connecting twice is the same as connecting once |
| Registry.RemoveIdempotent | BluetoothScanApp/BluetoothScanApp/BluetoothManager.swift:52-55 | disconnecting twice is the same as disconnecting once |
| Registry.InsertThenRemove | BluetoothScanApp/BluetoothScanApp/BluetoothManager.swift:47-55 | connecting a peripheral that was not connected and then disconnecting it restores the original set |
| Resolver.WithUuid | BluetoothScanApp/BluetoothScanApp/BluetoothManager.swift:105-106 | the UUID filter keeps no more attributes than it is given, each with the wanted UUID |
| Resolver.WithUuidExact | BluetoothScanApp/BluetoothScanApp/BluetoothManager.swift:120-121 | an attribute passes the filter if and only if it is in the list and has the wanted UUID |
| Resolver.WithUuidAppend | BluetoothScanApp/BluetoothScanApp/BluetoothManager.swift:105-108 | the filter keeps the order: filtering a concatenation concatenates the filtered parts |
| Resolver.WithUuidAllMatch | BluetoothScanApp/BluetoothScanApp/BluetoothManager.swift:120-124 | a list whose every attribute has the wanted UUID passes unchanged |
| Resolver.DiscoverEach | BluetoothScanApp/BluetoothScanApp/BluetoothManager.swift:107 | one `discoverCharacteristics(nil, for:)` request per given service, for this peripheral, in the services' order |
| Resolver.NotifyEach | BluetoothScanApp/BluetoothScanApp/BluetoothManager.swift:123 | one `setNotifyValue(true, for:)` request per given characteristic, for this peripheral, in order |
| Resolver.AudioCharacteristicAfter | BluetoothScanApp/BluetoothScanApp/BluetoothManager.swift:120-122 | the stored characteristic is unchanged on an error or a nil list, and has `CHARACTERISTIC_UUID` whenever some reported characteristic does |
| Resolver.CharacteristicDiscoveryRequests | BluetoothScanApp/BluetoothScanApp/BluetoothManager.swift:97-110 | an error or a missing service list issues nothing; every request is a characteristic discovery for this peripheral on a service with `SERVICE_UUID` |
| Resolver.NotifyRequests | BluetoothScanApp/BluetoothScanApp/BluetoothManager.swift:112-126 | an error or a missing characteristic list issues nothing; every request enables notify, for this peripheral, on a characteristic with `CHARACTERISTIC_UUID` |
| Resolver.CharacteristicDiscoveryStep | BluetoothScanApp/BluetoothScanApp/BluetoothManager.swift:105-108 | one more iteration over a service appends its discovery request exactly when its UUID is `SERVICE_UUID` |
| Resolver.NotifyStep | BluetoothScanApp/BluetoothScanApp/BluetoothManager.swift:120-124 | one more iteration over a characteristic appends its notify request, and makes it the stored audio characteristic, exactly when its UUID is `CHARACTERISTIC_UUID` |
| Resolver.CharacteristicDiscoveryExact | BluetoothScanApp/BluetoothScanApp/BluetoothManager.swift:105-109 | characteristic discovery is requested for a service if and only if it was reported and its UUID is `SERVICE_UUID` |
| Resolver.NotifyExact | BluetoothScanApp/BluetoothScanApp/BluetoothManager.swift:120-125 | notify is enabled for a characteristic if and only if it was reported and its UUID is `CHARACTERISTIC_UUID` |
| Resolver.CharacteristicDiscoveryInOrder | BluetoothScanApp/BluetoothScanApp/BluetoothManager.swift:105-109 | requests follow the order of the reported services |
| Resolver.NotifyInOrder | BluetoothScanApp/BluetoothScanApp/BluetoothManager.swift:120-125 | requests follow the order of the reported characteristics |
| Resolver.AudioCharacteristicIsTarget | BluetoothScanApp/BluetoothScanApp/BluetoothManager.swift:120-122 | the stored audio characteristic is the previous one or a reported characteristic with `CHARACTERISTIC_UUID` |
| Manager.BluetoothManager.constructor | BluetoothScanApp/BluetoothScanApp/BluetoothManager.swift:7-24 | a new manager has an empty registry, no connections, no audio characteristic and an empty buffer, and satisfies the invariant |
| Manager.BluetoothManager.DidUpdateState | BluetoothScanApp/BluetoothScanApp/BluetoothManager.swift:26-32 | exactly one unfiltered scan request when the radio is powered on, none in any other state |
| Manager.BluetoothManager.IsConnected | BluetoothScanApp/BluetoothScanApp/BluetoothManager.swift:34-36 | true exactly when the peripheral is in the connection set |
| Manager.BluetoothManager.DidDiscover | BluetoothScanApp/BluetoothScanApp/BluetoothManager.swift:38-45 | a missing or non-`"Friend"` name, or a known identifier, leaves the registry unchanged, so the first-seen RSSI is kept; a new device leaves it sorted by non-increasing RSSI and a permutation of the old list plus the new entry; the invariant (sorted, distinct identifiers, only targets) is preserved |
| Manager.BluetoothManager.ClearDiscovered | BluetoothScanApp/BluetoothScanApp/ContentView.swift:52 | the reset empties the registry and keeps the invariant |
| Manager.BluetoothManager.Connect | BluetoothScanApp/BluetoothScanApp/BluetoothManager.swift:47-50 | issues one connect request; afterwards `IsConnected(p)` holds and no other peripheral's membership has changed |
| Manager.BluetoothManager.Disconnect | BluetoothScanApp/BluetoothScanApp/BluetoothManager.swift:52-55 | issues one cancel request; afterwards `IsConnected(p)` is false and no other peripheral's membership has changed |
| Manager.BluetoothManager.DidConnect | BluetoothScanApp/BluetoothScanApp/BluetoothManager.swift:91-95 | a new connection asks for all of the peripheral's services |
| Manager.BluetoothManager.DidDiscoverServices | BluetoothScanApp/BluetoothScanApp/BluetoothManager.swift:97-110 | the loop issues exactly `CharacteristicDiscoveryRequests`: the filtered services in order, or nothing on error |
| Manager.BluetoothManager.DidDiscoverCharacteristics | BluetoothScanApp/BluetoothScanApp/BluetoothManager.swift:112-126 | the loop issues exactly `NotifyRequests`, and stores the last matching characteristic (unchanged on error or when none matches) |
| Manager.BluetoothManager.DidUpdateValue | BluetoothScanApp/BluetoothScanApp/BluetoothManager.swift:128-131 | a value with an error, no value, or a value of at most 3 bytes changes nothing; any other value is reassembled as in `HandleAudioData` |
| Manager.BluetoothManager.HandleAudioData | BluetoothScanApp/BluetoothScanApp/BluetoothManager.swift:133-140 | a notification of at most 3 bytes changes nothing and plays nothing; a longer one plays exactly the decode of the buffer followed by the bytes after the header, and leaves the buffer empty |
| Manager.BluetoothManager.ProcessAudio | BluetoothScanApp/BluetoothScanApp/BluetoothManager.swift:142-151 | an empty buffer plays nothing; otherwise its decoded samples are played once and the buffer is emptied |

## Left out

- The CoreBluetooth calls are not executed; they are returned as `Request` values. These calls are `scanForPeripherals`, `connect`, `cancelPeripheralConnection`, `discoverServices`, `discoverCharacteristics` and `setNotifyValue`. Their effects, and the completion callbacks they lead to, are not modelled.
- `peripheral.delegate = self` in `didConnect` is framework wiring and is not modelled.
- `setupAudio` and the body of `playAudio` are AVFoundation calls and real-time behaviour, so they are left out. This covers the engine and node setup, the `AVAudioPCMBuffer` allocation and its failure, `scheduleBuffer(..., options: .loops)` and `play()`. `playAudio` is modelled only as the `PlayAudio(samples)` request. A 1-byte payload therefore requests a frame of zero samples, as the code does.
- The floating-point normalisation `Float(sample) / Float(Int16.max)` is left out, because floating point is outside this model.
- `printBufferAsHexString` only prints, so it is left out. All `print` logging is left out too, including the one use of `toHexString` in `handleAudioData`. `toHexString` itself is modelled.
- The commented-out handlers were never compiled, so they are left out.
- Callbacks are assumed to arrive one at a time. `@Published` change notification and dispatch queues are not modelled.
- `Registry.SortByRssi` is an insertion sort that stands in for Swift's library `sort`. Only what the library promises is used: the order and the permutation. Stability is not claimed.
- A `CBPeripheral` is modelled as an immutable value (identifier and name). Set membership is value equality, which stands in for object identity.
- A `CBUUID` is modelled as its 128-bit value. Parsing the UUID strings is not modelled.
- The RSSI `NSNumber` is read as an unbounded integer. The `intValue` conversion is not modelled.
- The `Int16` read assumes a little-endian host, as on Apple hardware. Big-endian hosts are not modelled.
