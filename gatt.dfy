/**
 * The CoreBluetooth vocabulary of the manager: UUIDs, peripherals, GATT
 * attributes, radio states, and the requests the manager issues to the
 * Bluetooth and audio frameworks. Framework calls are not executed by the
 * model; every handler returns the list of requests it would have issued.
 */
module Gatt {
  import opened Wrappers
  import opened Bytes

  /** A `CBUUID`, by its 128-bit value; two UUIDs are equal when their values are. */
  type Uuid = u: int | 0 <= u < 0x1_0000_0000_0000_0000_0000_0000_0000_0000

  /** The audio-streaming service, 19B10000-E8F2-537E-4F6C-D104768A1214. */
  const SERVICE_UUID: Uuid := 0x19B1_0000_E8F2_537E_4F6C_D104_768A_1214

  /** The audio characteristic, 19B10001-E8F2-537E-4F6C-D104768A1214. */
  const CHARACTERISTIC_UUID: Uuid := 0x19B1_0001_E8F2_537E_4F6C_D104_768A_1214

  /** A `CBPeripheral`: its stable identifier and its advertised name, if any. */
  datatype Peripheral = Peripheral(identifier: Uuid, name: Option<string>)

  /**
   * A GATT attribute (`CBService` or `CBCharacteristic`): a handle that tells
   * two attributes with the same UUID apart, and its UUID.
   */
  datatype Attribute = Attribute(handle: nat, uuid: Uuid)

  type Service = Attribute

  type Characteristic = Attribute

  /** An `Error` delivered with a discovery or update callback. */
  datatype LinkError = LinkError(code: int)

  /** `CBManagerState`. */
  datatype RadioState = Unknown | Resetting | Unsupported | Unauthorized | PoweredOff | PoweredOn

  /** A call the manager makes into CoreBluetooth or AVFoundation. */
  datatype Request =
    | ScanForPeripherals                                       // scanForPeripherals(withServices: nil, options: nil)
    | ConnectPeripheral(peripheral: Peripheral)                // centralManager.connect(_:options: nil)
    | CancelPeripheralConnection(peripheral: Peripheral)       // centralManager.cancelPeripheralConnection(_:)
    | DiscoverServices(peripheral: Peripheral)                 // peripheral.discoverServices(nil)
    | DiscoverCharacteristics(peripheral: Peripheral, service: Service)  // discoverCharacteristics(nil, for:)
    | SetNotifyValue(peripheral: Peripheral, enabled: bool, characteristic: Characteristic)
    | PlayAudio(samples: seq<int16>)                           // playAudio(_:) on the decoded frame
}
