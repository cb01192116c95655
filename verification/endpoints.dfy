/**
 One endpoint of the active render collection, as its COM calls would answer,
 and the best-effort rules `list_devices` applies to it.
 */
module Endpoints {
  import opened Com

  /** IMMDevice::GetId followed by PWSTR::to_string. */
  datatype IdRead =
    | IdUnavailable          // GetId failed
    | IdUndecodable          // GetId succeeded, to_string failed
    | IdText(text: string)   // the endpoint's persistent id

  /** IMMDevice::OpenPropertyStore followed by GetValue(PKEY_Device_FriendlyName). */
  datatype StoreRead =
    | StoreUnavailable            // OpenPropertyStore failed
    | NameUnreadable              // the store opened, GetValue failed
    | FriendlyName(name: string)  // the PROPVARIANT rendered as a string

  /** IMMDeviceCollection::Item(i): either failed, or a device with its property answers. */
  datatype Endpoint =
    | ItemUnavailable
    | Device(store: StoreRead, id: IdRead)

  /** The record `list_devices` returns per endpoint. */
  datatype AudioDevice = AudioDevice(id: string, name: string)

  /** The endpoint's id string when Item, GetId and to_string all succeed. */
  function ReadableId(e: Endpoint): (r: Option<string>)
    ensures r.Some? <==> e.Device? && e.id.IdText?
    ensures r.Some? ==> r.value == e.id.text
  {
    match e
    case ItemUnavailable => None
    case Device(_, IdText(s)) => Some(s)
    case Device(_, _) => None
  }

  /**
   The loop body of `list_devices` for one endpoint: None when the entry is
   dropped. Note the order: the name is read first and a failing GetValue
   skips the endpoint before its id is ever asked for.
   */
  function Describe(e: Endpoint): (r: Option<AudioDevice>)
    ensures r.None? <==> e.ItemUnavailable? || e.store.NameUnreadable?
    ensures r.Some? && e.store.StoreUnavailable? ==> r.value.name == ""
    ensures r.Some? && e.store.FriendlyName? ==> r.value.name == e.store.name
    ensures r.Some? && ReadableId(e).None? ==> r.value.id == ""
    ensures r.Some? && ReadableId(e).Some? ==> r.value.id == ReadableId(e).value
  {
    match e
    case ItemUnavailable => None
    case Device(NameUnreadable, _) => None
    case Device(store, id) =>
      var name := match store { case FriendlyName(n) => n case _ => "" };
      var idValue := match id { case IdText(t) => t case _ => "" };
      Some(AudioDevice(idValue, name))
  }

  /** The devices `list_devices` collects from a collection, in index order. */
  function Listing(items: seq<Endpoint>): (out: seq<AudioDevice>)
    ensures |out| <= |items|
    ensures forall d :: d in out ==> exists i :: 0 <= i < |items| && Describe(items[i]) == Some(d)
    ensures forall i :: 0 <= i < |items| && Describe(items[i]).Some? ==> Describe(items[i]).value in out
  {
    if |items| == 0 then []
    else
      var rest := Listing(items[1..]);
      assert forall i :: 1 <= i < |items| ==> items[i] == items[1..][i - 1];
      match Describe(items[0])
      case None => rest
      case Some(d) => [d] + rest
  }

  /** Listing works index by index: the listing of a split collection is the listing of its parts, in order. */
  lemma {:induction false} ListingAppend(a: seq<Endpoint>, b: seq<Endpoint>)
    ensures Listing(a + b) == Listing(a) + Listing(b)
    decreases |a|
  {
    if |a| == 0 {
      assert a + b == b;
    } else {
      assert (a + b)[0] == a[0];
      assert (a + b)[1..] == a[1..] + b;
      ListingAppend(a[1..], b);
    }
  }
}
