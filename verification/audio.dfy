/**
 The public entry points of the `audio` module: `set_default_output_by_name`,
 `set_default_output_by_id_str` and `list_devices`, each bracketed by the
 apartment guard, with every COM answer supplied by a `Host` oracle.
 */
module Audio {
  import opened Com
  import opened Apartment
  import opened Endpoints
  import opened Matching
  import opened PolicyBridge

  /** CoCreateInstance(MMDeviceEnumerator), EnumAudioEndpoints(eRender, ACTIVE) and GetCount, in that order. */
  datatype Enumeration =
    | EnumeratorUnavailable(hr: HResult)
    | EndpointsUnavailable(hr: HResult)
    | CountUnavailable(hr: HResult)
    | Collection(items: seq<Endpoint>)   // GetCount answered |items|

  /** Everything the operating system answers during one call. */
  datatype Host = Host(initHr: HResult, enumeration: Enumeration, policy: PolicyOracle)

  /**
   What a selector call ended with. The Rust selectors return unit and only log
   these outcomes; the model returns them so that they can be stated.
   */
  datatype SelectOutcome =
    | InitRefused(hr: HResult)
    | EnumerationFailed(hr: HResult)
    | NotFound
    | Committed(id: string, result: CommitResult)

  /** Effects an entry point performs between its CoInitializeEx and its CoUninitialize. */
  predicate BodyEffect(e: Effect) {
    e.CreateEnumerator? || e.Commit? || PolicyEffect(e)
  }

  predicate AllBodyEffects(effects: seq<Effect>) {
    forall k :: 0 <= k < |effects| ==> BodyEffect(effects[k])
  }

  /** The part of a selector between the apartment calls. */
  function SelectBody(c: Criterion, en: Enumeration, policy: PolicyOracle): (r: Run<SelectOutcome>)
    ensures |r.effects| > 0 && r.effects[0] == CreateEnumerator
    ensures AllBodyEffects(r.effects)
  {
    match en
    case EnumeratorUnavailable(hr) => Run(EnumerationFailed(hr), [CreateEnumerator])
    case EndpointsUnavailable(hr) => Run(EnumerationFailed(hr), [CreateEnumerator])
    case CountUnavailable(hr) => Run(EnumerationFailed(hr), [CreateEnumerator])
    case Collection(items) =>
      match FindFirst(c, items)
      case None => Run(NotFound, [CreateEnumerator])
      case Some(i) =>
        var id := ReadableId(items[i]).value;
        var ffi := SetDefaultDeviceFfi(id, policy);
        Run(Committed(id, ffi.value), [CreateEnumerator, Commit(id)] + ffi.effects)
  }

  function Select(c: Criterion, host: Host): Run<SelectOutcome> {
    Bracket(host.initHr, InitRefused(host.initHr), SelectBody(c, host.enumeration, host.policy))
  }

  /**
   `set_default_output_by_name`: commits the first endpoint whose id contains
   `nameMatch`, ignoring case, inside the apartment bracket.
   */
  function SetDefaultOutputByName(nameMatch: string, host: Host): (r: Run<SelectOutcome>)
    ensures Count(r.effects, Init) == 1 && Count(r.effects, Uninit) == (if Succeeded(host.initHr) then 1 else 0)
    ensures Tally(r.effects, IsCommit) == (if r.value.Committed? then 1 else 0)
    ensures r.value.Committed? ==>
      Reaches(host) && Contains(Lower(r.value.id), Lower(nameMatch)) && Count(r.effects, Commit(r.value.id)) == 1
    ensures r.value.NotFound? ==> Reaches(host)
  {
    SelectBracketed(IdContains(nameMatch), host);
    SelectCommitsOnce(IdContains(nameMatch), host);
    SelectCommitsFirstMatch(IdContains(nameMatch), host);
    Select(IdContains(nameMatch), host)
  }

  /**
   `set_default_output_by_id_str`: commits the first endpoint whose id is
   exactly `idMatch`, inside the apartment bracket.
   */
  function SetDefaultOutputByIdStr(idMatch: string, host: Host): (r: Run<SelectOutcome>)
    ensures Count(r.effects, Init) == 1 && Count(r.effects, Uninit) == (if Succeeded(host.initHr) then 1 else 0)
    ensures Tally(r.effects, IsCommit) == (if r.value.Committed? then 1 else 0)
    ensures r.value.Committed? ==> Reaches(host) && r.value.id == idMatch && Count(r.effects, Commit(idMatch)) == 1
    ensures r.value.NotFound? ==> Reaches(host)
  {
    SelectBracketed(IdEquals(idMatch), host);
    SelectCommitsOnce(IdEquals(idMatch), host);
    SelectCommitsFirstMatch(IdEquals(idMatch), host);
    Select(IdEquals(idMatch), host)
  }

  function ListBody(en: Enumeration): (r: Run<seq<AudioDevice>>)
    ensures r.effects == [CreateEnumerator]
  {
    match en
    case Collection(items) => Run(Listing(items), [CreateEnumerator])
    case _ => Run([], [CreateEnumerator])
  }

  /** `list_devices`: the kept endpoints in collection order, or empty on any collection-level failure. */
  function ListDevices(host: Host): (r: Run<seq<AudioDevice>>)
    ensures Count(r.effects, Init) == 1 && Count(r.effects, Uninit) == (if Succeeded(host.initHr) then 1 else 0)
    ensures Tally(r.effects, IsCommit) == 0
    ensures Reaches(host) ==> r.value == Listing(host.enumeration.items)
    ensures !Reaches(host) ==> r.value == []
  {
    var r := Bracket(host.initHr, [], ListBody(host.enumeration));
    BracketedFacts(host.initHr, [], ListBody(host.enumeration));
    assert forall k :: 0 <= k < |r.effects| ==> !IsCommit(r.effects[k]);
    r
  }

  // ---------------------------------------------------------------- traces

  lemma BodyEffectsFacts(effects: seq<Effect>)
    requires AllBodyEffects(effects)
    ensures Unbracketed(effects)
    ensures Tally(effects, IsSelectByName) == 0
  {
    assert forall k :: 0 <= k < |effects| ==> effects[k] != Init && effects[k] != Uninit && !IsSelectByName(effects[k]);
  }

  /** The entry point's trace, read through the apartment bracket. */
  lemma BracketedFacts<T>(hr: HResult, refused: T, body: Run<T>)
    requires AllBodyEffects(body.effects)
    ensures var r := Bracket(hr, refused, body);
      && Count(r.effects, Init) == 1
      && Count(r.effects, Uninit) == (if Classify(hr) == Owned then 1 else 0)
      && (Classify(hr) == Owned ==> r.effects[|r.effects| - 1] == Uninit)
      && Tally(r.effects, IsSelectByName) == 0
  {
    BodyEffectsFacts(body.effects);
    BracketBalanced(hr, refused, body);
    var r := Bracket(hr, refused, body);
    assert forall k :: 0 <= k < |r.effects| ==> r.effects[k] == Init || r.effects[k] == Uninit || r.effects[k] in body.effects;
  }

  /**
   Apartment bracket of the selectors: one CoInitializeEx; one CoUninitialize,
   last, exactly when the call owns the apartment (S_OK, S_FALSE) and none when
   it found RPC_E_CHANGED_MODE; on any other failure nothing else happens.
   */
  lemma SelectBracketed(c: Criterion, host: Host)
    ensures var r := Select(c, host);
      && Count(r.effects, Init) == 1
      && Count(r.effects, Uninit) == (if Succeeded(host.initHr) then 1 else 0)
      && (Succeeded(host.initHr) ==> r.effects[|r.effects| - 1] == Uninit)
      && (Classify(host.initHr) == Refused ==> r == Run(InitRefused(host.initHr), [Init]))
      && (Classify(host.initHr) != Refused ==> r.effects[1] == CreateEnumerator)
  {
    BracketedFacts(host.initHr, InitRefused(host.initHr), SelectBody(c, host.enumeration, host.policy));
  }

  /** The same bracket around `list_devices`. */
  lemma ListDevicesBracketed(host: Host)
    ensures var r := ListDevices(host);
      && Count(r.effects, Init) == 1
      && Count(r.effects, Uninit) == (if Succeeded(host.initHr) then 1 else 0)
      && (Classify(host.initHr) == Refused ==> r == Run([], [Init]))
      && (Classify(host.initHr) == Owned ==> r.effects == [Init, CreateEnumerator, Uninit])
      && (Classify(host.initHr) == Borrowed ==> r.effects == [Init, CreateEnumerator])
  {
    BracketedFacts(host.initHr, [], ListBody(host.enumeration));
  }

  // ---------------------------------------------------------------- selection

  /** The host exposes a collection and the apartment call did not refuse. */
  predicate Reaches(host: Host) {
    Classify(host.initHr) != Refused && host.enumeration.Collection?
  }

  /**
   A selector commits if and only if it reaches the collection and some
   endpoint is selectable; the committed id is that of the first selectable
   endpoint in index order, and it goes to the policy bridge as is.
   */
  lemma SelectCommitsFirstMatch(c: Criterion, host: Host)
    ensures var r := Select(c, host);
      r.value.Committed? <==> Reaches(host) && exists i :: 0 <= i < |host.enumeration.items| && Selectable(c, host.enumeration.items[i])
    ensures var r := Select(c, host);
      r.value.Committed? ==>
        && Reaches(host)
        && (exists i :: 0 <= i < |host.enumeration.items|
              && ReadableId(host.enumeration.items[i]) == Some(r.value.id)
              && Selectable(c, host.enumeration.items[i])
              && forall j :: 0 <= j < i ==> !Selectable(c, host.enumeration.items[j]))
        && r.value.result == SetDefaultDeviceFfi(r.value.id, host.policy).value
  {
    var r := Select(c, host);
    if r.value.Committed? {
      var i := FindFirst(c, host.enumeration.items).value;
      assert ReadableId(host.enumeration.items[i]) == Some(r.value.id);
    }
  }

  /** A committing selector calls set_default_device_ffi exactly once, with the committed id; any other outcome never calls it. */
  lemma SelectCommitsOnce(c: Criterion, host: Host)
    ensures var r := Select(c, host);
      && Tally(r.effects, IsCommit) == (if r.value.Committed? then 1 else 0)
      && (r.value.Committed? ==> Count(r.effects, Commit(r.value.id)) == 1)
  {
    var r := Select(c, host);
    var body := SelectBody(c, host.enumeration, host.policy);
    if r.value.Committed? {
      var id := r.value.id;
      BodyCommitsOnce(id, host.policy);
      BracketWithoutExtraCommits(host.initHr, InitRefused(host.initHr), body, Commit(id));
    }
  }

  /** The trace of a committing body: one enumerator, one commit, then the bridge's policy calls. */
  lemma BodyCommitsOnce(id: string, policy: PolicyOracle)
    ensures var effects := [CreateEnumerator, Commit(id)] + SetDefaultDeviceFfi(id, policy).effects;
      Tally(effects, IsCommit) == 1 && Count(effects, Commit(id)) == 1
  {
    var ffi := SetDefaultDeviceFfi(id, policy).effects;
    PolicyEffectsHoldNoCommit(ffi, id);
    CommitPrefix(id);
    TallyAppend([CreateEnumerator, Commit(id)], ffi, IsCommit);
    CountAppend([CreateEnumerator, Commit(id)], ffi, Commit(id));
  }

  lemma PolicyEffectsHoldNoCommit(effects: seq<Effect>, id: string)
    requires forall k :: 0 <= k < |effects| ==> PolicyEffect(effects[k])
    ensures Tally(effects, IsCommit) == 0 && Count(effects, Commit(id)) == 0
  {
    assert forall k :: 0 <= k < |effects| ==> !IsCommit(effects[k]) && effects[k] != Commit(id);
  }

  lemma CommitPrefix(id: string)
    ensures Tally([CreateEnumerator, Commit(id)], IsCommit) == 1
    ensures Count([CreateEnumerator, Commit(id)], Commit(id)) == 1
  {
    assert [CreateEnumerator, Commit(id)] == [CreateEnumerator] + [Commit(id)];
    assert Tally([CreateEnumerator], IsCommit) == 0;
    assert Tally([Commit(id)], IsCommit) == 1;
    CountSingleton(Commit(id), CreateEnumerator);
    CountSingleton(Commit(id), Commit(id));
    TallyAppend([CreateEnumerator], [Commit(id)], IsCommit);
    CountAppend([CreateEnumerator], [Commit(id)], Commit(id));
  }

  /** The apartment calls add no commit to the body's trace. */
  lemma BracketWithoutExtraCommits<T>(hr: HResult, refused: T, body: Run<T>, e: Effect)
    requires Classify(hr) != Refused && e.Commit?
    ensures Tally(Bracket(hr, refused, body).effects, IsCommit) == Tally(body.effects, IsCommit)
    ensures Count(Bracket(hr, refused, body).effects, e) == Count(body.effects, e)
  {
    CountSingleton(e, Init);
    CountSingleton(e, Uninit);
    assert Tally([Init], IsCommit) == 0;
    assert Tally([Uninit], IsCommit) == 0;
    TallyAppend([Init], body.effects, IsCommit);
    CountAppend([Init], body.effects, e);
    if Classify(hr) == Owned {
      TallyAppend([Init] + body.effects, [Uninit], IsCommit);
      CountAppend([Init] + body.effects, [Uninit], e);
    }
  }

  /**
   No match, no commit: when no endpoint is selectable the selector never calls
   set_default_device_ffi, so the trace holds no commit, no PolicyConfig
   instantiation and no SetDefaultEndpoint.
   */
  lemma NoMatchNoCommit(c: Criterion, host: Host)
    requires host.enumeration.Collection?
    requires forall i :: 0 <= i < |host.enumeration.items| ==> !Selectable(c, host.enumeration.items[i])
    ensures var r := Select(c, host);
      && (Classify(host.initHr) != Refused ==> r.value == NotFound)
      && Tally(r.effects, IsCommit) == 0
      && Tally(r.effects, IsCreateAttempt) == 0
      && Tally(r.effects, IsSetDefault) == 0
  {
  }

  /** Substring selection: the committed id, lowercased, contains the lowercased needle, and no earlier readable id does. */
  lemma ByNameCommitsFirstContaining(nameMatch: string, host: Host)
    requires Reaches(host)
    ensures var r := SetDefaultOutputByName(nameMatch, host);
      r.value.Committed? ==>
        && Contains(Lower(r.value.id), Lower(nameMatch))
        && exists i :: 0 <= i < |host.enumeration.items| && ReadableId(host.enumeration.items[i]) == Some(r.value.id)
             && forall j :: 0 <= j < i && ReadableId(host.enumeration.items[j]).Some? ==>
                  !Contains(Lower(ReadableId(host.enumeration.items[j]).value), Lower(nameMatch))
    ensures var r := SetDefaultOutputByName(nameMatch, host);
      r.value.NotFound? <==> forall i :: 0 <= i < |host.enumeration.items| && ReadableId(host.enumeration.items[i]).Some? ==>
        !Contains(Lower(ReadableId(host.enumeration.items[i]).value), Lower(nameMatch))
  {
    SelectCommitsFirstMatch(IdContains(nameMatch), host);
  }

  /** Exact selection: the committed id is the argument itself, character for character. */
  lemma ByIdCommitsExactId(idMatch: string, host: Host)
    ensures var r := SetDefaultOutputByIdStr(idMatch, host);
      r.value.Committed? ==> r.value.id == idMatch && Count(r.effects, Commit(idMatch)) == 1
    ensures var r := SetDefaultOutputByIdStr(idMatch, host);
      r.value.Committed? <==> Reaches(host) && exists i :: 0 <= i < |host.enumeration.items| && ReadableId(host.enumeration.items[i]) == Some(idMatch)
  {
    SelectCommitsFirstMatch(IdEquals(idMatch), host);
    SelectCommitsOnce(IdEquals(idMatch), host);
    var r := SetDefaultOutputByIdStr(idMatch, host);
    if Reaches(host) {
      var items := host.enumeration.items;
      assert forall i :: 0 <= i < |items| ==> (Selectable(IdEquals(idMatch), items[i]) <==> ReadableId(items[i]) == Some(idMatch));
    }
  }

  /** Only the id is matched: changing friendly names leaves every selector call unchanged. */
  lemma SelectIgnoresNames(c: Criterion, host: Host, items': seq<Endpoint>)
    requires host.enumeration.Collection? && SameIds(host.enumeration.items, items')
    ensures Select(c, host) == Select(c, host.(enumeration := Collection(items')))
  {
    FindFirstIgnoresNames(c, host.enumeration.items, items');
  }

  // ---------------------------------------------------------------- listing

  /**
   `list_devices` never commits, and a failure to create the enumerator, to
   enumerate the endpoints or to count them yields an empty listing.
   */
  lemma ListDevicesNeverCommits(host: Host)
    ensures var r := ListDevices(host);
      && Tally(r.effects, IsCommit) == 0
      && Tally(r.effects, IsCreateAttempt) == 0
      && Tally(r.effects, IsSetDefault) == 0
    ensures !host.enumeration.Collection? ==> ListDevices(host).value == []
    ensures Reaches(host) ==> ListDevices(host).value == Listing(host.enumeration.items)
    ensures |ListDevices(host).value| <= (if host.enumeration.Collection? then |host.enumeration.items| else 0)
  {
  }

  /**
   The listing/selection round trip: any device listed with a non-empty id is
   found again by exact-id selection on the same collection, which commits
   that very id.
   */
  lemma ListedIdIsSelectable(host: Host, d: AudioDevice)
    requires Reaches(host)
    requires d in ListDevices(host).value && d.id != ""
    ensures SetDefaultOutputByIdStr(d.id, host).value.Committed?
    ensures SetDefaultOutputByIdStr(d.id, host).value.id == d.id
  {
    var items := host.enumeration.items;
    var i :| 0 <= i < |items| && Describe(items[i]) == Some(d);
    assert ReadableId(items[i]) == Some(d.id);
    ByIdCommitsExactId(d.id, host);
  }

  /**
   An endpoint whose id cannot be read (GetId or to_string fails) but whose
   friendly-name read does not fail is still listed, with an empty id, and no
   selector ever picks it.
   */
  lemma IdlessDeviceListedButNotSelectable(host: Host, i: nat)
    requires Reaches(host) && i < |host.enumeration.items|
    requires host.enumeration.items[i].Device?
    requires !host.enumeration.items[i].id.IdText? && !host.enumeration.items[i].store.NameUnreadable?
    ensures Describe(host.enumeration.items[i]).Some? && Describe(host.enumeration.items[i]).value.id == ""
    ensures Describe(host.enumeration.items[i]).value in ListDevices(host).value
    ensures forall c :: !Selectable(c, host.enumeration.items[i])
    ensures forall c :: FindFirst(c, host.enumeration.items) != Some(i)
  {
  }

  /**
   An endpoint whose property store opens but whose friendly name cannot be
   read contributes nothing to the listing, although its id is readable and
   exact-id selection commits it.
   */
  lemma NamelessDeviceDropped(host: Host, i: nat, t: string)
    requires Reaches(host) && i < |host.enumeration.items|
    requires host.enumeration.items[i] == Device(NameUnreadable, IdText(t))
    ensures ListDevices(host).value == Listing(host.enumeration.items[..i]) + Listing(host.enumeration.items[i + 1..])
    ensures SetDefaultOutputByIdStr(t, host).value.Committed? && SetDefaultOutputByIdStr(t, host).value.id == t
  {
    var items := host.enumeration.items;
    assert items == items[..i] + ([items[i]] + items[i + 1..]);
    ListingAppend(items[..i], [items[i]] + items[i + 1..]);
    ListingAppend([items[i]], items[i + 1..]);
    assert Listing([items[i]]) == [] by { assert [items[i]][1..] == []; }
    ByIdCommitsExactId(t, host);
  }
}
