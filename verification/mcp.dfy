/**
 The remote tool `change_audio_device`: a fixed table from the request's
 `option` to a call of the substring selector, answered with a one-field JSON
 object.
 */
module Mcp {
  import opened Com
  import opened Audio
  import Matching

  datatype ToolRequest = ToolRequest(tool: string, option: string)

  /** The one-field JSON objects the handler answers with: `{"<key>": "<value>"}`. */
  datatype Json = Object(key: string, value: string)

  /** The handler's `Result<Json<Value>, String>`. */
  datatype HandlerResult = HandlerOk(json: Json) | HandlerErr(message: string)

  const OkReply := Object("result", "ok")
  const InvalidReply := Object("error", "invalid tool or option")

  /** The alias table: the needle each recognised option is resolved to. */
  function Alias(option: string): (needle: Option<string>)
    ensures option == "headphones" ==> needle == Some("headphone")
    ensures option == "usb speaker" ==> needle == Some("usb speaker")
    ensures needle.Some? <==> option == "headphones" || option == "usb speaker"
  {
    if option == "headphones" then Some("headphone")
    else if option == "usb speaker" then Some("usb speaker")
    else None
  }

  /**
   `AudioTools::change_audio_device`. A recognised option runs the substring
   selector once and answers ok whatever the selector did (it returns unit);
   anything else answers the error object without touching the audio module.
   */
  function ChangeAudioDevice(req: ToolRequest, host: Host): (r: Run<HandlerResult>)
    ensures r.value == HandlerOk(if Alias(req.option).Some? then OkReply else InvalidReply)
    ensures Tally(r.effects, IsSelectByName) == (if Alias(req.option).Some? then 1 else 0)
    ensures Alias(req.option).Some? ==> r.effects[0] == SelectByName(Alias(req.option).value)
    ensures Alias(req.option).None? ==> r.effects == []
  {
    match Alias(req.option)
    case Some(needle) =>
      var selected := SetDefaultOutputByName(needle, host);
      BracketedFacts(host.initHr, InitRefused(host.initHr), SelectBody(Matching.IdContains(needle), host.enumeration, host.policy));
      assert Tally([SelectByName(needle)], IsSelectByName) == 1;
      TallyAppend([SelectByName(needle)], selected.effects, IsSelectByName);
      Run(HandlerOk(OkReply), [SelectByName(needle)] + selected.effects)
    case None =>
      Run(HandlerOk(InvalidReply), [])
  }

  /** The selector calls the handler makes: exactly one, with the aliased needle, when the option is recognised, otherwise none. */
  lemma DispatchCallsSelectorOnce(req: ToolRequest, host: Host)
    ensures var r := ChangeAudioDevice(req, host);
      Tally(r.effects, IsSelectByName) == (if Alias(req.option).Some? then 1 else 0)
    ensures var r := ChangeAudioDevice(req, host);
      Alias(req.option).Some? ==> r.effects[0] == SelectByName(Alias(req.option).value)
    ensures req.option == "headphones" ==>
      ChangeAudioDevice(req, host) == Run(HandlerOk(OkReply), [SelectByName("headphone")] + SetDefaultOutputByName("headphone", host).effects)
    ensures req.option == "usb speaker" ==>
      ChangeAudioDevice(req, host) == Run(HandlerOk(OkReply), [SelectByName("usb speaker")] + SetDefaultOutputByName("usb speaker", host).effects)
  {
  }

  /** Any option outside the table answers the error object and does nothing else. */
  lemma UnknownOptionRejected(req: ToolRequest, host: Host)
    requires req.option != "headphones" && req.option != "usb speaker"
    ensures ChangeAudioDevice(req, host) == Run(HandlerOk(InvalidReply), [])
  {
  }

  /** Option matching is exact and case-sensitive. */
  lemma OptionIsCaseSensitive(tool: string, host: Host)
    ensures ChangeAudioDevice(ToolRequest(tool, "Headphones"), host).value == HandlerOk(InvalidReply)
    ensures ChangeAudioDevice(ToolRequest(tool, "USB Speaker"), host).value == HandlerOk(InvalidReply)
  {
    assert "Headphones" != "headphones" by { assert "Headphones"[0] != "headphones"[0]; }
    assert "USB Speaker" != "usb speaker" by { assert "USB Speaker"[0] != "usb speaker"[0]; }
  }

  /**
   The reply depends on the option alone: neither the `tool` field nor anything
   the audio module answers changes it, and it is never the Err arm; a
   recognised option answers ok even when no device matched.
   */
  lemma ReplyDependsOnOptionOnly(req: ToolRequest, req': ToolRequest, host: Host, host': Host)
    requires req.option == req'.option
    ensures ChangeAudioDevice(req, host).value == ChangeAudioDevice(req', host').value
    ensures ChangeAudioDevice(req, host).value.HandlerOk?
    ensures ChangeAudioDevice(req, host).value == HandlerOk(if Alias(req.option).Some? then OkReply else InvalidReply)
  {
  }

  /** The tool field never routes: the whole run, trace included, is the same for any tool name. */
  lemma ToolFieldIgnored(tool: string, tool': string, option: string, host: Host)
    ensures ChangeAudioDevice(ToolRequest(tool, option), host) == ChangeAudioDevice(ToolRequest(tool', option), host)
  {
  }
}
