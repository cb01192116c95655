/**
 Shared vocabulary of the audio model: HRESULT status codes, the trace of
 observable COM effects each entry point produces, and counting over traces.

 Every COM call of the Rust program is replaced by an oracle value that
 the caller supplies; the operations are pure functions returning a value
 together with the effects they performed, in order.
 */
module Com {

  datatype Option<+T> = None | Some(value: T)

  /** A Windows HRESULT: a signed 32-bit status word. */
  type HResult = x: int | -0x8000_0000 <= x < 0x8000_0000

  const S_OK: HResult := 0
  const S_FALSE: HResult := 1
  /** RPC_E_CHANGED_MODE (0x80010106) read as a signed 32-bit value. */
  const RPC_E_CHANGED_MODE: HResult := 0x8001_0106 - 0x1_0000_0000

  /** `HRESULT::is_ok`: success codes are the non-negative ones (S_OK, S_FALSE, ...). */
  predicate Succeeded(hr: HResult) {
    hr >= 0
  }

  /** The ERole values; the program only ever passes eMultimedia. */
  datatype Role = Console | Multimedia | Communications

  /** A (class id, interface id) pair naming one PolicyConfig variant. GUIDs are opaque 128-bit numbers. */
  datatype Candidate = Candidate(clsid: nat, iid: nat)

  /** The observable side effects of an entry point, in the order they happen. */
  datatype Effect =
    | Init                                  // CoInitializeEx
    | Uninit                                // CoUninitialize
    | CreateEnumerator                      // CoCreateInstance(MMDeviceEnumerator)
    | CreateAttempt(candidate: Candidate)   // CoCreateInstance of a PolicyConfig candidate
    | SetDefault(id: string, role: Role)    // IPolicyConfig::SetDefaultEndpoint
    | Release                               // IPolicyConfig::Release
    | Commit(id: string)                    // a call of set_default_device_ffi
    | SelectByName(needle: string)          // a call of set_default_output_by_name

  /** The result of an entry point together with the effects it performed. */
  datatype Run<+T> = Run(value: T, effects: seq<Effect>)

  predicate IsCommit(e: Effect) { e.Commit? }
  predicate IsCreateAttempt(e: Effect) { e.CreateAttempt? }
  predicate IsSetDefault(e: Effect) { e.SetDefault? }
  predicate IsSelectByName(e: Effect) { e.SelectByName? }

  /** Number of effects in the trace that satisfy `p`. */
  function Tally(effects: seq<Effect>, p: Effect -> bool): (n: nat)
    ensures n <= |effects|
    ensures n == 0 <==> forall k :: 0 <= k < |effects| ==> !p(effects[k])
  {
    if |effects| == 0 then 0
    else
      var rest := Tally(effects[1..], p);
      assert forall k :: 1 <= k < |effects| ==> effects[k] == effects[1..][k - 1];
      (if p(effects[0]) then 1 else 0) + rest
  }

  /** Number of occurrences of exactly the effect `e`. */
  function Count(effects: seq<Effect>, e: Effect): nat {
    Tally(effects, x => x == e)
  }

  lemma {:induction false} TallyAppend(a: seq<Effect>, b: seq<Effect>, p: Effect -> bool)
    ensures Tally(a + b, p) == Tally(a, p) + Tally(b, p)
    decreases |a|
  {
    if |a| == 0 {
      assert a + b == b;
    } else {
      assert (a + b)[1..] == a[1..] + b;
      TallyAppend(a[1..], b, p);
    }
  }

  lemma CountAppend(a: seq<Effect>, b: seq<Effect>, e: Effect)
    ensures Count(a + b, e) == Count(a, e) + Count(b, e)
  {
    TallyAppend(a, b, x => x == e);
  }

  /** An effect that the trace holds exactly once. */
  lemma CountSingleton(e: Effect, x: Effect)
    ensures Count([x], e) == (if x == e then 1 else 0)
  {
    assert [x][1..] == [];
  }
}
