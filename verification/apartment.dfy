/**
 The per-call COM apartment bracket shared by every public audio entry point:
 CoInitializeEx at the top, CoUninitialize on every exit path, but only when
 this call is the one that initialised the apartment.
 */
module Apartment {
  import opened Com

  /** Who owns the thread's apartment after CoInitializeEx returned `hr`. */
  datatype Ownership =
    | Owned     // S_OK or S_FALSE (any success): this call must uninitialise
    | Borrowed  // RPC_E_CHANGED_MODE: initialised differently by someone else; continue, never uninitialise
    | Refused   // any other failure: return at once

  function Classify(hr: HResult): (o: Ownership)
    ensures o == Owned <==> Succeeded(hr)
    ensures o == Borrowed <==> hr == RPC_E_CHANGED_MODE
    ensures o == Refused <==> !Succeeded(hr) && hr != RPC_E_CHANGED_MODE
  {
    if hr == RPC_E_CHANGED_MODE then Borrowed
    else if Succeeded(hr) then Owned
    else Refused
  }

  /** Neither CoInitializeEx nor CoUninitialize appears in the trace. */
  predicate Unbracketed(effects: seq<Effect>) {
    Count(effects, Init) == 0 && Count(effects, Uninit) == 0
  }

  /**
   Runs `body` inside the apartment bracket. On refusal the body is not run at
   all and `refused` is returned; otherwise the body's effects are framed by
   Init and, when owned, a trailing Uninit.
   */
  function Bracket<T>(hr: HResult, refused: T, body: Run<T>): (r: Run<T>)
    ensures Classify(hr) == Refused ==> r == Run(refused, [Init])
    ensures Classify(hr) != Refused ==> r.value == body.value
    ensures Classify(hr) == Borrowed ==> r.effects == [Init] + body.effects
    ensures Classify(hr) == Owned ==> r.effects == [Init] + body.effects + [Uninit]
  {
    match Classify(hr)
    case Refused => Run(refused, [Init])
    case Borrowed => Run(body.value, [Init] + body.effects)
    case Owned => Run(body.value, [Init] + body.effects + [Uninit])
  }

  /**
   Exactly one CoInitializeEx per call; exactly one CoUninitialize when this
   call owns the apartment, as its last effect, and none otherwise.
   */
  lemma BracketBalanced<T>(hr: HResult, refused: T, body: Run<T>)
    requires Unbracketed(body.effects)
    ensures Count(Bracket(hr, refused, body).effects, Init) == 1
    ensures Count(Bracket(hr, refused, body).effects, Uninit) == (if Classify(hr) == Owned then 1 else 0)
    ensures Classify(hr) == Owned ==> Bracket(hr, refused, body).effects[|Bracket(hr, refused, body).effects| - 1] == Uninit
  {
    var r := Bracket(hr, refused, body);
    assert Count([Init], Init) == 1 by { CountSingleton(Init, Init); }
    assert Count([Init], Uninit) == 0 by { CountSingleton(Uninit, Init); }
    match Classify(hr)
    case Refused =>
    case Borrowed =>
      CountAppend([Init], body.effects, Init);
      CountAppend([Init], body.effects, Uninit);
    case Owned =>
      CountAppend([Init], body.effects, Init);
      CountAppend([Init], body.effects, Uninit);
      CountAppend([Init] + body.effects, [Uninit], Init);
      CountAppend([Init] + body.effects, [Uninit], Uninit);
      CountSingleton(Init, Uninit);
      CountSingleton(Uninit, Uninit);
  }
}
