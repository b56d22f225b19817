/**
 * The service resolver: after services are discovered, characteristic
 * discovery is requested for the audio service; after characteristics are
 * discovered, notifications are enabled on the audio characteristic. Either
 * step issues nothing when the callback carries an error or no list.
 */
module Resolver {
  import opened Wrappers
  import opened Gatt

  /** The attributes whose UUID is `uuid`, in their original order. */
  function WithUuid(attributes: seq<Attribute>, uuid: Uuid): (matching: seq<Attribute>)
    ensures |matching| <= |attributes|
    ensures forall k :: 0 <= k < |matching| ==> matching[k].uuid == uuid
  {
    if attributes == [] then []
    else (if attributes[0].uuid == uuid then [attributes[0]] else []) + WithUuid(attributes[1..], uuid)
  }

  /** The filter keeps exactly the attributes with the UUID. */
  lemma {:induction false} WithUuidExact(attributes: seq<Attribute>, uuid: Uuid, a: Attribute)
    ensures a in WithUuid(attributes, uuid) <==> a in attributes && a.uuid == uuid
  {
    if attributes != [] {
      WithUuidExact(attributes[1..], uuid, a);
      assert attributes == [attributes[0]] + attributes[1..];
    }
  }

  /** The filter keeps the order: filtering a concatenation concatenates the filtered parts. */
  lemma {:induction false} WithUuidAppend(a: seq<Attribute>, b: seq<Attribute>, uuid: Uuid)
    ensures WithUuid(a + b, uuid) == WithUuid(a, uuid) + WithUuid(b, uuid)
  {
    if a == [] {
      assert a + b == b;
    } else {
      var head := if a[0].uuid == uuid then [a[0]] else [];
      assert (a + b)[0] == a[0] && (a + b)[1..] == a[1..] + b;
      assert WithUuid(a + b, uuid) == head + WithUuid(a[1..] + b, uuid);
      WithUuidAppend(a[1..], b, uuid);
      assert WithUuid(a, uuid) == head + WithUuid(a[1..], uuid);
    }
  }

  /** A list of matching attributes passes the filter unchanged. */
  lemma {:induction false} WithUuidAllMatch(attributes: seq<Attribute>, uuid: Uuid)
    requires forall k :: 0 <= k < |attributes| ==> attributes[k].uuid == uuid
    ensures WithUuid(attributes, uuid) == attributes
  {
    if attributes != [] {
      WithUuidAllMatch(attributes[1..], uuid);
    }
  }

  /** `discoverCharacteristics(nil, for: s)` for each service `s`, in order. */
  function DiscoverEach(p: Peripheral, services: seq<Service>): (requests: seq<Request>)
    ensures |requests| == |services|
    ensures forall k :: 0 <= k < |services| ==>
      requests[k].DiscoverCharacteristics? && requests[k].peripheral == p && requests[k].service == services[k]
  {
    seq(|services|, k requires 0 <= k < |services| => DiscoverCharacteristics(p, services[k]))
  }

  /** `setNotifyValue(true, for: c)` for each characteristic `c`, in order. */
  function NotifyEach(p: Peripheral, characteristics: seq<Characteristic>): (requests: seq<Request>)
    ensures |requests| == |characteristics|
    ensures forall k :: 0 <= k < |characteristics| ==>
      && requests[k].SetNotifyValue? && requests[k].peripheral == p && requests[k].enabled
      && requests[k].characteristic == characteristics[k]
  {
    seq(|characteristics|, k requires 0 <= k < |characteristics| => SetNotifyValue(p, true, characteristics[k]))
  }

  lemma DiscoverEachAppend(p: Peripheral, a: seq<Service>, b: seq<Service>)
    ensures DiscoverEach(p, a + b) == DiscoverEach(p, a) + DiscoverEach(p, b)
  {
    var whole, parts := DiscoverEach(p, a + b), DiscoverEach(p, a) + DiscoverEach(p, b);
    forall k | 0 <= k < |whole|
      ensures whole[k] == parts[k]
    {
      if k < |a| {
        assert (a + b)[k] == a[k];
      } else {
        assert (a + b)[k] == b[k - |a|];
      }
    }
  }

  lemma NotifyEachAppend(p: Peripheral, a: seq<Characteristic>, b: seq<Characteristic>)
    ensures NotifyEach(p, a + b) == NotifyEach(p, a) + NotifyEach(p, b)
  {
    var whole, parts := NotifyEach(p, a + b), NotifyEach(p, a) + NotifyEach(p, b);
    forall k | 0 <= k < |whole|
      ensures whole[k] == parts[k]
    {
      if k < |a| {
        assert (a + b)[k] == a[k];
      } else {
        assert (a + b)[k] == b[k - |a|];
      }
    }
  }

  /** What `peripheral(_:didDiscoverServices:)` requests. */
  function CharacteristicDiscoveryRequests(p: Peripheral, error: Option<LinkError>, services: Option<seq<Service>>): (requests: seq<Request>)
    ensures error.Some? || services.None? ==> requests == []
    ensures forall k :: 0 <= k < |requests| ==>
      requests[k].DiscoverCharacteristics? && requests[k].peripheral == p && requests[k].service.uuid == SERVICE_UUID
  {
    if error.Some? || services.None? then [] else DiscoverEach(p, WithUuid(services.value, SERVICE_UUID))
  }

  /** What `peripheral(_:didDiscoverCharacteristicsFor:error:)` requests. */
  function NotifyRequests(p: Peripheral, error: Option<LinkError>, characteristics: Option<seq<Characteristic>>): (requests: seq<Request>)
    ensures error.Some? || characteristics.None? ==> requests == []
    ensures forall k :: 0 <= k < |requests| ==>
      && requests[k].SetNotifyValue? && requests[k].peripheral == p && requests[k].enabled
      && requests[k].characteristic.uuid == CHARACTERISTIC_UUID
  {
    if error.Some? || characteristics.None? then [] else NotifyEach(p, WithUuid(characteristics.value, CHARACTERISTIC_UUID))
  }

  /** `audioCharacteristic` after the characteristic handler: the last match, or unchanged if none. */
  function AudioCharacteristicAfter(current: Option<Characteristic>, error: Option<LinkError>,
                                    characteristics: Option<seq<Characteristic>>): (after: Option<Characteristic>)
    ensures error.Some? || characteristics.None? ==> after == current
    ensures error.None? && characteristics.Some? &&
            (exists k :: 0 <= k < |characteristics.value| && characteristics.value[k].uuid == CHARACTERISTIC_UUID)
        ==> after.Some? && after.value.uuid == CHARACTERISTIC_UUID
  {
    if error.Some? || characteristics.None? then current
    else
      var matching := WithUuid(characteristics.value, CHARACTERISTIC_UUID);
      if matching == [] then
        assert forall k :: 0 <= k < |characteristics.value| ==> characteristics.value[k].uuid != CHARACTERISTIC_UUID by {
          forall k | 0 <= k < |characteristics.value|
            ensures characteristics.value[k].uuid != CHARACTERISTIC_UUID
          {
            WithUuidExact(characteristics.value, CHARACTERISTIC_UUID, characteristics.value[k]);
          }
        }
        current
      else Some(matching[|matching| - 1])
  }

  /** One more reported service extends the requests by its own, if it matches. */
  lemma CharacteristicDiscoveryStep(p: Peripheral, services: seq<Service>, i: nat)
    requires i < |services|
    ensures CharacteristicDiscoveryRequests(p, None, Some(services[..i + 1]))
         == CharacteristicDiscoveryRequests(p, None, Some(services[..i]))
          + (if services[i].uuid == SERVICE_UUID then [DiscoverCharacteristics(p, services[i])] else [])
  {
    assert services[..i + 1] == services[..i] + [services[i]];
    WithUuidAppend(services[..i], [services[i]], SERVICE_UUID);
  }

  /** One more reported characteristic extends the requests by its own and becomes the stored one, if it matches. */
  lemma NotifyStep(p: Peripheral, current: Option<Characteristic>, characteristics: seq<Characteristic>, i: nat)
    requires i < |characteristics|
    ensures NotifyRequests(p, None, Some(characteristics[..i + 1]))
         == NotifyRequests(p, None, Some(characteristics[..i]))
          + (if characteristics[i].uuid == CHARACTERISTIC_UUID then [SetNotifyValue(p, true, characteristics[i])] else [])
    ensures AudioCharacteristicAfter(current, None, Some(characteristics[..i + 1]))
         == if characteristics[i].uuid == CHARACTERISTIC_UUID then Some(characteristics[i])
            else AudioCharacteristicAfter(current, None, Some(characteristics[..i]))
  {
    assert characteristics[..i + 1] == characteristics[..i] + [characteristics[i]];
    WithUuidAppend(characteristics[..i], [characteristics[i]], CHARACTERISTIC_UUID);
  }

  /** Characteristic discovery is requested for a service exactly when it is in the list with the audio service UUID. */
  lemma CharacteristicDiscoveryExact(p: Peripheral, services: seq<Service>, s: Service)
    ensures DiscoverCharacteristics(p, s) in CharacteristicDiscoveryRequests(p, None, Some(services))
        <==> s in services && s.uuid == SERVICE_UUID
  {
    var matching := WithUuid(services, SERVICE_UUID);
    WithUuidExact(services, SERVICE_UUID, s);
    var requests := DiscoverEach(p, matching);
    if s in matching {
      var k :| 0 <= k < |matching| && matching[k] == s;
      assert requests[k] == DiscoverCharacteristics(p, s);
    }
  }

  /** Notify is enabled for a characteristic exactly when it is in the list with the audio characteristic UUID. */
  lemma NotifyExact(p: Peripheral, characteristics: seq<Characteristic>, c: Characteristic)
    ensures SetNotifyValue(p, true, c) in NotifyRequests(p, None, Some(characteristics))
        <==> c in characteristics && c.uuid == CHARACTERISTIC_UUID
  {
    var matching := WithUuid(characteristics, CHARACTERISTIC_UUID);
    WithUuidExact(characteristics, CHARACTERISTIC_UUID, c);
    var requests := NotifyEach(p, matching);
    if c in matching {
      var k :| 0 <= k < |matching| && matching[k] == c;
      assert requests[k] == SetNotifyValue(p, true, c);
    }
  }

  /** Requests are issued in the order the services were reported: the handler on a split list issues the two parts in turn. */
  lemma CharacteristicDiscoveryInOrder(p: Peripheral, a: seq<Service>, b: seq<Service>)
    ensures CharacteristicDiscoveryRequests(p, None, Some(a + b))
         == CharacteristicDiscoveryRequests(p, None, Some(a)) + CharacteristicDiscoveryRequests(p, None, Some(b))
  {
    WithUuidAppend(a, b, SERVICE_UUID);
    DiscoverEachAppend(p, WithUuid(a, SERVICE_UUID), WithUuid(b, SERVICE_UUID));
  }

  /** The same for the notify requests. */
  lemma NotifyInOrder(p: Peripheral, a: seq<Characteristic>, b: seq<Characteristic>)
    ensures NotifyRequests(p, None, Some(a + b)) == NotifyRequests(p, None, Some(a)) + NotifyRequests(p, None, Some(b))
  {
    WithUuidAppend(a, b, CHARACTERISTIC_UUID);
    NotifyEachAppend(p, WithUuid(a, CHARACTERISTIC_UUID), WithUuid(b, CHARACTERISTIC_UUID));
  }

  /** The stored audio characteristic is always one the peripheral reported with the audio UUID, or the previous one. */
  lemma AudioCharacteristicIsTarget(current: Option<Characteristic>, error: Option<LinkError>,
                                    characteristics: Option<seq<Characteristic>>)
    ensures var after := AudioCharacteristicAfter(current, error, characteristics);
      after == current ||
      (error.None? && characteristics.Some? && after.Some? &&
       after.value in characteristics.value && after.value.uuid == CHARACTERISTIC_UUID)
  {
    if error.None? && characteristics.Some? {
      var matching := WithUuid(characteristics.value, CHARACTERISTIC_UUID);
      if matching != [] {
        WithUuidExact(characteristics.value, CHARACTERISTIC_UUID, matching[|matching| - 1]);
      }
    }
  }
}
