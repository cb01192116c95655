# win-control audio core, modelled in Dafny

win-control enumerates the active audio render endpoints of a Windows host,
changes the default output endpoint through the undocumented PolicyConfig COM
object, and exposes the change to remote callers as the MCP tool
`change_audio_device`. This project models the decision logic around the COM
calls. Every COM call is replaced by an oracle value that the caller supplies
(a `Host` record: the CoInitializeEx HRESULT, the enumeration answers with one
`Endpoint` record per collection index, and the PolicyConfig answers). Each
entry point is a pure function returning its result together with a trace of
effects: `Init`, `Uninit`, `CreateEnumerator`, `CreateAttempt(candidate)`,
`SetDefault(id, role)`, `Release`, `Commit(id)` and `SelectByName(needle)`.

Modules, leaf first:

- `Com` (com.dfy): HRESULT codes, the effect trace, counting over traces.
- `Apartment` (apartment.dfy): the CoInitializeEx / CoUninitialize bracket.
- `Endpoints` (endpoints.dfy): per-endpoint answers and the `list_devices` keep/drop rules.
- `Matching` (matching.dfy): ASCII lowercase, substring search, the first-match scan.
- `PolicyBridge` (policy_bridge.dfy): `set_default_device_ffi` and its two-candidate fallback.
- `Audio` (audio.dfy): `set_default_output_by_name`, `set_default_output_by_id_str`, `list_devices`.
- `Mcp` (mcp.dfy): `AudioTools::change_audio_device`.

Behaviour of the code worth noting:

- Listing: an endpoint whose property store opens but whose friendly name cannot be read is skipped, even when its id is readable. An endpoint whose store does not open is kept with an empty name. An endpoint whose id cannot be read is kept with an empty id. `Audio.NamelessDeviceDropped` and `Audio.IdlessDeviceListedButNotSelectable` state these rules for every collection.
- Matching: both selectors look at the id string only, never at the friendly name. `Matching.FindFirstIgnoresNames` states this.
- Selection outcome: the selectors return unit and only log what happened. The model returns the logged outcome as `SelectOutcome`, and the MCP handler ignores it.
- Fallback error: when both PolicyConfig candidates fail, the error carries the second candidate's HRESULT. That value is 0 when the call succeeded but left a null pointer.

## Model

| member | source | states |
|---|---|---|
| Apartment.Classify | src/main.rs:52-61 | CoInitializeEx success codes (S_OK, S_FALSE, ...) give ownership; RPC_E_CHANGED_MODE continues without ownership; every other code refuses |
| Apartment.BracketBalanced | src/main.rs:52-122 | exactly one Init; exactly one Uninit, as the last effect, if and only if this call owns the apartment |
| Endpoints.ReadableId | src/main.rs:92-105 | an endpoint has an id string exactly when Item, GetId and to_string all succeed |
| Endpoints.Describe | src/main.rs:238-266 | an entry is dropped exactly when Item fails or the friendly-name read fails after the store opened; a store-open failure gives an empty name; an id failure gives an empty id |
| Endpoints.Listing | src/main.rs:238-266 | the listing is no longer than the collection; it holds exactly the descriptions of the kept indices |
| Endpoints.ListingAppend | src/main.rs:238-266 | listing works index by index: listing a split collection is the listing of its parts, in order |
| Matching.Lower | src/main.rs:106 | lowercase keeps the length and folds each character on its own |
| Matching.Contains | src/main.rs:106 | the substring scan is true exactly when the needle occurs at some position, the empty needle included |
| Matching.SubstringIgnoresCase | src/main.rs:106 | substring matching gives the same answer whatever the ASCII case of the needle or the id |
| Matching.FindFirst | src/main.rs:90-110 | the scan returns the first index whose readable id the criterion accepts; earlier indices are all rejected or unreadable; none exactly when no index qualifies |
| Matching.FindFirstIgnoresNames | src/main.rs:101-106 | the scan's answer depends only on the id strings, never on friendly names |
| PolicyBridge.Invoke | src/main.rs:185-194 | the vtable call is SetDefaultEndpoint(id, eMultimedia) followed by exactly one Release whatever it returned; the result is Ok if and only if that HRESULT is 0, otherwise an error carrying it |
| PolicyBridge.SetDefaultDeviceFfi | src/main.rs:157-194 | the first attempt is the Vista/client candidate; only policy-object effects occur; both candidates failing gives the second HRESULT and nothing else; with an instance the trace ends SetDefault(id, eMultimedia) then Release, and the result is Ok if and only if that HRESULT is 0 |
| PolicyBridge.FallbackOnlyOnFailure | src/main.rs:157-183 | the alternate candidate is tried if and only if the first gave a nonzero HRESULT or a null pointer; at most two attempts |
| PolicyBridge.ExactlyOnceWithInstance | src/main.rs:185-194 | with an instance, exactly one SetDefaultEndpoint (given id, eMultimedia) and exactly one Release; without one, neither |
| PolicyBridge.SecondCandidateRecovers | src/main.rs:168-194 | a failing first candidate and a working second one commit through the second exactly once and succeed |
| Audio.SetDefaultOutputByName | src/main.rs:50-124 | one CoInitializeEx, one CoUninitialize exactly when it succeeded; at most one commit, and a committed id, lowercased, contains the lowercased needle; no commit unless the collection was reached |
| Audio.SetDefaultOutputByIdStr | src/main.rs:275-340 | one CoInitializeEx, one CoUninitialize exactly when it succeeded; at most one commit, and a committed id is the argument itself |
| Audio.ListDevices | src/main.rs:197-273 | one CoInitializeEx, one CoUninitialize exactly when it succeeded; never commits; the kept endpoints in collection order when the collection is reached, otherwise empty |
| Audio.SelectBody | src/main.rs:63-118 | the body always starts by creating the enumerator and performs only enumeration, commit and policy effects |
| Audio.SelectBracketed | src/main.rs:52-122 | the selectors emit one Init and, exactly when CoInitializeEx succeeded, one final Uninit; a refused init does nothing else |
| Audio.ListDevicesBracketed | src/main.rs:200-270 | list_devices has the same bracket: one Init, one Uninit exactly on success, an empty result on refusal |
| Audio.SelectCommitsFirstMatch | src/main.rs:90-118 | a selector commits if and only if it reaches the collection and some endpoint is selectable; the committed id is that of the first selectable endpoint; the result is the bridge's |
| Audio.SelectCommitsOnce | src/main.rs:112-118 | a committing selector calls the bridge exactly once, with the committed id; any other outcome never calls it |
| Audio.NoMatchNoCommit | src/main.rs:112-118 | with no selectable endpoint there is no commit, no PolicyConfig instantiation and no SetDefaultEndpoint |
| Audio.ByNameCommitsFirstContaining | src/main.rs:90-110 | the committed id, lowercased, contains the lowercased needle and is the first readable id that does; not found exactly when no readable id does |
| Audio.ByIdCommitsExactId | src/main.rs:314-334 | exact selection commits the argument itself, once, and commits if and only if some readable id equals it |
| Audio.SelectIgnoresNames | src/main.rs:101-106 | changing friendly names leaves every selector run unchanged |
| Audio.ListDevicesNeverCommits | src/main.rs:211-266 | list_devices never commits or touches PolicyConfig; a collection-level failure gives an empty list; its length is at most the count |
| Audio.ListedIdIsSelectable | src/main.rs:258-326 | a device listed with a non-empty id is committed, with that same id, by exact-id selection on the same collection |
| Audio.IdlessDeviceListedButNotSelectable | src/main.rs:241-264 | at any index, an endpoint whose id cannot be read and whose name read does not fail is listed with an empty id, and no selector criterion ever picks that index |
| Audio.NamelessDeviceDropped | src/main.rs:247-256 | at any index, an endpoint whose store opens but whose friendly name cannot be read contributes nothing to the listing, yet exact-id selection of its id commits that id |
| Mcp.Alias | src/mcp.rs:37-48 | "headphones" maps to needle "headphone", "usb speaker" to "usb speaker", and no other option maps to anything |
| Mcp.ChangeAudioDevice | src/mcp.rs:36-50 | the reply is always the Ok arm: {"result":"ok"} for a recognised option, else {"error":"invalid tool or option"}; exactly one selector call, first, for a recognised option, and an empty trace otherwise |
| Mcp.DispatchCallsSelectorOnce | src/mcp.rs:38-47 | a recognised option causes exactly one substring-selector call, with its aliased needle, first in the trace; an unrecognised one causes none |
| Mcp.UnknownOptionRejected | src/mcp.rs:48 | any other option answers {"error":"invalid tool or option"} with an empty trace |
| Mcp.OptionIsCaseSensitive | src/mcp.rs:37 | "Headphones" and "USB Speaker" are not recognised |
| Mcp.ReplyDependsOnOptionOnly | src/mcp.rs:36-50 | the reply is a function of the option alone, is always the Ok arm, and is {"result":"ok"} for a recognised option even when no device matched |
| Mcp.ToolFieldIgnored | src/mcp.rs:36-49 | the tool field changes neither the reply nor the trace |

## Left out

- COM and FFI mechanics: CoCreateInstance, the IPolicyConfig vtable layout, `transmute`, and PWSTR/PROPVARIANT conversion. Each call is an oracle answer. The four GUIDs are kept only as opaque numbers naming the two candidates.
- Unicode lowercasing: `Matching.Lower` folds ASCII letters only, while Rust's `to_lowercase` folds all of Unicode.
- The 32-bit width of the endpoint count: the collection is an unbounded sequence and `GetCount` answers its length.
- Which COM call failed inside a collection-level failure is kept only as its HRESULT. The model returns the logged outcome but not the `eprintln!` text.
- CLI plumbing: `Cli`, `main`, `print_devices`, `print_devices_json` and `select_device`. This is argument parsing and printing, and these wrappers call CoInitializeEx without a matching uninitialise.
- Non-Windows builds: `#[cfg(target_os = "windows")]` compiles the selector call in `change_audio_device` away on every other target, where the handler answers {"result":"ok"} without any call. The model and `Mcp.ChangeAudioDevice` describe the Windows build only.
- JSON serialisation: replies are modelled as one-field objects.
- `start_mcp_server`: the thread, the Tokio runtime, the TCP listener on 127.0.0.1:30331 and per-connection tasks. This is I/O and concurrency.
- The rmcp router and its transport framing, which belong to an external library.
