/**
 `set_default_device_ffi`: obtains the undocumented PolicyConfig object through
 a two-candidate fallback, calls SetDefaultEndpoint once through its vtable and
 releases the object once.
 */
module PolicyBridge {
  import opened Com

  /** CLSID_POLICY_CONFIG_CLIENT with IID_IPOLICY_CONFIG_VISTA, tried first. */
  const VistaClient := Candidate(0x294935ce_f637_4e7c_a41b_ab255460b862, 0x568b9108_44bf_40b4_9006_86afe5b5a620)
  /** CLSID_POLICY_CONFIG with IID_IPOLICY_CONFIG, the fallback. */
  const Alternate := Candidate(0x870af99c_171d_4f9e_af0d_e63df40c2bc9, 0xf8679f50_850a_41cf_9c72_430f290290c8)

  /** What one CoCreateInstance of a candidate answers: its HRESULT and whether the out-pointer is non-null. */
  datatype Instantiation = Instantiation(hr: HResult, nonNull: bool)

  /** The program accepts an instance only when the HRESULT is exactly 0 and the pointer is non-null. */
  predicate Live(i: Instantiation) {
    i.hr == 0 && i.nonNull
  }

  /** The answers of the policy calls: both instantiations and SetDefaultEndpoint's HRESULT. */
  datatype PolicyOracle = PolicyOracle(first: Instantiation, second: Instantiation, setHr: HResult)

  /** `windows::core::Result<()>`: Ok, or an error carrying the HRESULT. */
  datatype CommitResult = Done | Failed(hr: HResult)

  /** Effects the bridge may perform: it touches nothing but the policy object. */
  predicate PolicyEffect(e: Effect) {
    e.CreateAttempt? || e.SetDefault? || e.Release?
  }

  /** SetDefaultEndpoint(id, eMultimedia) through the vtable, then Release, whatever it returned. */
  function Invoke(id: string, setHr: HResult): (r: Run<CommitResult>)
    ensures |r.effects| == 2 && r.effects[0] == SetDefault(id, Multimedia) && r.effects[1] == Release
    ensures Count(r.effects, Release) == 1 && Tally(r.effects, IsSetDefault) == 1
    ensures r.value == Done <==> setHr == 0
    ensures r.value.Failed? ==> r.value.hr == setHr
  {
    CountSingleton(Release, SetDefault(id, Multimedia));
    CountSingleton(Release, Release);
    assert [SetDefault(id, Multimedia), Release] == [SetDefault(id, Multimedia)] + [Release];
    CountAppend([SetDefault(id, Multimedia)], [Release], Release);
    assert Tally([SetDefault(id, Multimedia)], IsSetDefault) == 1;
    assert Tally([Release], IsSetDefault) == 0;
    TallyAppend([SetDefault(id, Multimedia)], [Release], IsSetDefault);
    Run(if setHr == 0 then Done else Failed(setHr), [SetDefault(id, Multimedia), Release])
  }

  function SetDefaultDeviceFfi(id: string, p: PolicyOracle): (r: Run<CommitResult>)
    ensures |r.effects| > 0 && r.effects[0] == CreateAttempt(VistaClient)
    ensures forall k :: 0 <= k < |r.effects| ==> PolicyEffect(r.effects[k])
    ensures !Live(p.first) && !Live(p.second) ==> r == Run(Failed(p.second.hr), [CreateAttempt(VistaClient), CreateAttempt(Alternate)])
    ensures Live(p.first) || Live(p.second) ==>
      |r.effects| >= 3 && r.effects[|r.effects| - 2..] == [SetDefault(id, Multimedia), Release] && (r.value == Done <==> p.setHr == 0)
    ensures r.value.Failed? && (Live(p.first) || Live(p.second)) ==> r.value.hr == p.setHr
  {
    if Live(p.first) then
      var call := Invoke(id, p.setHr);
      Run(call.value, [CreateAttempt(VistaClient)] + call.effects)
    else if Live(p.second) then
      var call := Invoke(id, p.setHr);
      Run(call.value, [CreateAttempt(VistaClient), CreateAttempt(Alternate)] + call.effects)
    else
      Run(Failed(p.second.hr), [CreateAttempt(VistaClient), CreateAttempt(Alternate)])
  }

  /**
   The fallback chain: the second candidate is tried if and only if the first
   gave a nonzero HRESULT or a null pointer, and never more than two attempts.
   */
  lemma FallbackOnlyOnFailure(id: string, p: PolicyOracle)
    ensures Count(SetDefaultDeviceFfi(id, p).effects, CreateAttempt(VistaClient)) == 1
    ensures Count(SetDefaultDeviceFfi(id, p).effects, CreateAttempt(Alternate)) == (if Live(p.first) then 0 else 1)
    ensures Tally(SetDefaultDeviceFfi(id, p).effects, IsCreateAttempt) <= 2
  {
    var one := [CreateAttempt(VistaClient)];
    var two := [CreateAttempt(VistaClient), CreateAttempt(Alternate)];
    AttemptCounts();
    if Live(p.first) || Live(p.second) {
      var tail := Invoke(id, p.setHr).effects;
      InvokeMakesNoAttempt(id, p.setHr);
      var head := if Live(p.first) then one else two;
      assert SetDefaultDeviceFfi(id, p).effects == head + tail;
      CountAppend(head, tail, CreateAttempt(VistaClient));
      CountAppend(head, tail, CreateAttempt(Alternate));
      TallyAppend(head, tail, IsCreateAttempt);
    }
  }

  /** Attempt counts of the two possible attempt prefixes. */
  lemma AttemptCounts()
    ensures Count([CreateAttempt(VistaClient)], CreateAttempt(VistaClient)) == 1
    ensures Count([CreateAttempt(VistaClient)], CreateAttempt(Alternate)) == 0
    ensures Tally([CreateAttempt(VistaClient)], IsCreateAttempt) == 1
    ensures Count([CreateAttempt(VistaClient), CreateAttempt(Alternate)], CreateAttempt(VistaClient)) == 1
    ensures Count([CreateAttempt(VistaClient), CreateAttempt(Alternate)], CreateAttempt(Alternate)) == 1
    ensures Tally([CreateAttempt(VistaClient), CreateAttempt(Alternate)], IsCreateAttempt) == 2
  {
    assert VistaClient != Alternate;
    CountSingleton(CreateAttempt(VistaClient), CreateAttempt(VistaClient));
    CountSingleton(CreateAttempt(Alternate), CreateAttempt(VistaClient));
    CountSingleton(CreateAttempt(VistaClient), CreateAttempt(Alternate));
    CountSingleton(CreateAttempt(Alternate), CreateAttempt(Alternate));
    assert [CreateAttempt(VistaClient), CreateAttempt(Alternate)] == [CreateAttempt(VistaClient)] + [CreateAttempt(Alternate)];
    CountAppend([CreateAttempt(VistaClient)], [CreateAttempt(Alternate)], CreateAttempt(VistaClient));
    CountAppend([CreateAttempt(VistaClient)], [CreateAttempt(Alternate)], CreateAttempt(Alternate));
    assert Tally([CreateAttempt(VistaClient)], IsCreateAttempt) == 1;
    assert Tally([CreateAttempt(Alternate)], IsCreateAttempt) == 1;
    TallyAppend([CreateAttempt(VistaClient)], [CreateAttempt(Alternate)], IsCreateAttempt);
  }

  lemma InvokeMakesNoAttempt(id: string, setHr: HResult)
    ensures Tally(Invoke(id, setHr).effects, IsCreateAttempt) == 0
    ensures Count(Invoke(id, setHr).effects, CreateAttempt(VistaClient)) == 0
    ensures Count(Invoke(id, setHr).effects, CreateAttempt(Alternate)) == 0
  {
    var t := Invoke(id, setHr).effects;
    assert forall k :: 0 <= k < |t| ==> !IsCreateAttempt(t[k]) && t[k] != CreateAttempt(VistaClient) && t[k] != CreateAttempt(Alternate);
  }

  /**
   Once an instance exists, SetDefaultEndpoint is called exactly once, with the
   given id and eMultimedia, and Release exactly once; when none exists,
   neither is called.
   */
  lemma ExactlyOnceWithInstance(id: string, p: PolicyOracle)
    ensures var r := SetDefaultDeviceFfi(id, p);
      if Live(p.first) || Live(p.second) then
        Tally(r.effects, IsSetDefault) == 1 && Count(r.effects, SetDefault(id, Multimedia)) == 1 && Count(r.effects, Release) == 1
      else
        Tally(r.effects, IsSetDefault) == 0 && Count(r.effects, Release) == 0
  {
    var r := SetDefaultDeviceFfi(id, p);
    var tail := [SetDefault(id, Multimedia), Release];
    var head := if Live(p.first) then [CreateAttempt(VistaClient)] else [CreateAttempt(VistaClient), CreateAttempt(Alternate)];
    assert Tally(head, IsSetDefault) == 0;
    assert Count(head, Release) == 0;
    assert Count(head, SetDefault(id, Multimedia)) == 0;
    if Live(p.first) || Live(p.second) {
      assert r.effects == head + tail;
      assert tail == [SetDefault(id, Multimedia)] + [Release];
      CountSingleton(Release, SetDefault(id, Multimedia));
      CountSingleton(Release, Release);
      CountSingleton(SetDefault(id, Multimedia), SetDefault(id, Multimedia));
      CountSingleton(SetDefault(id, Multimedia), Release);
      CountAppend([SetDefault(id, Multimedia)], [Release], Release);
      CountAppend([SetDefault(id, Multimedia)], [Release], SetDefault(id, Multimedia));
      assert Tally(tail, IsSetDefault) == 1;
      TallyAppend(head, tail, IsSetDefault);
      CountAppend(head, tail, Release);
      CountAppend(head, tail, SetDefault(id, Multimedia));
    }
  }

  /**
   A failing first candidate followed by a working second one commits through
   the second one exactly once, and the first failure leaves no trace beyond its attempt.
   */
  lemma SecondCandidateRecovers(id: string, p: PolicyOracle)
    requires !Live(p.first) && Live(p.second) && p.setHr == 0
    ensures SetDefaultDeviceFfi(id, p) ==
      Run(Done, [CreateAttempt(VistaClient), CreateAttempt(Alternate), SetDefault(id, Multimedia), Release])
  {
  }
}
