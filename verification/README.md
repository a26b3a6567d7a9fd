# Render loop, demo app, static server and artifact table of a full-stack Rust template

This project is a Dafny model of the logic in a full-stack Rust web template. It covers four pieces:

- **The double-buffered render loop** of the WebAssembly front end (`web/src/utils.rs`). It also covers the older variant of the loop in `web/src/lib.rs`.
  - Two bump arenas alternate roles from one pass to the next.
  - Each pass builds the new virtual tree in the spare arena.
  - The external DOM differ then gets the old and new trees.
  - `previous` is overwritten, the arena that held the old tree is reset, and the two arenas are swapped.
  - Event bindings created during a pass register callbacks on the renderer. Dispatching one runs the handler on the model and schedules a render through an animation-frame callback.
- **The demo application** (`shared/src/lib.rs`). It is a click counter. Its view is one `P` element with a caption and a click binding.
- **The static server's routing decision** (`src/main.rs`). It maps a request path to an artifact, with a content type chosen by suffix. Every other path gets the index page.
- **The build scripts' artifact table** (`build.rs`, `server/build.rs`):
  - one constant per built file, with the identifier mangled from its file name;
  - the generated `artifact(name)` lookup;
  - the sources each script tells cargo to watch.

Memory is abstract. An arena is an id plus a generation, and `reset` advances the generation. Anything allocated is a token holding the arena and generation it came from. A token can be read while its arena is still at that generation.

Every pass also records its arena events: allocations, the differ's read, the store of the new tree, the reset and the swap. `Arenas.Replay` is an independent checker for such traces. It follows the generations and fails on the first event that touches reclaimed memory. The renderer's invariant states that the whole history since `attach` replays without such a failure.

Files:
- `wrappers.dfy`: `Option` and `Result`.
- `text.dfy`: decimal rendering and suffix tests.
- `vdom.dfy`: the virtual-tree types.
- `shared.dfy`: the demo model and view.
- `arenas.dfy`: arenas, tokens, trace events and the replay checker.
- `renderer.dfy`: `web/src/utils.rs`.
- `legacy.dfy`: `web/src/lib.rs`.
- `artifacts.dfy`: both build scripts.
- `server.dfy`: the request handler.

What the render loop does not do, and the model therefore does not add:
- There is no coalescing of render requests, no callback revocation, no `detach` and no generation-checked handles.
- `render_scheduled` is cleared by `render` but never set. So every `schedule_render` call requests another animation frame (`Renderer.ScheduleTimesRequestsEach`).
- Registrations are never removed. Their receivers live in the arena that the next pass resets (`Renderer.ReceiversReclaimedNextPass`).
- A nested `render` fails on the `RefCell` borrow of the render state (`Renderer.Render`).

## Model

| member | source | states |
|---|---|---|
| Shared.NewModel | shared/src/lib.rs:10-15 | a new model keeps the given area and starts its counter at 0 |
| Shared.OnClick | shared/src/lib.rs:17-21 | a click raises the counter by exactly one and leaves the area alone; `u32` overflow is excluded by the precondition |
| Shared.View | shared/src/lib.rs:24-36 | the view is one `P` element with no attributes and the caption as its only child. It calls the helper's `event_binding` exactly once, with `"click"`, default options and the click handler, and uses the returned slice unchanged as the element's bindings |
| Shared.CaptionRecoversCounter | shared/src/lib.rs:30 | the caption is "Hello from ", the area, the fixed middle text " of your full-stack Rust app! Counter is ", then digits that read back as the counter |
| Shared.CaptionInjective | shared/src/lib.rs:30 | two models whose areas have the same length show the same caption only if they are equal, so every counter change changes the text |
| Shared.UnitEventBinding | shared/src/lib.rs:42-46 | the `()` helper returns an empty binding slice for any input |
| Shared.UnitHelperViewHasNoBindings | shared/src/lib.rs:42-46 | rendered with the `()` helper, the view's tree carries no binding at all |
| Text.Decimal | shared/src/lib.rs:30 | the counter is written as a non-empty string of decimal digits with no leading zero |
| Text.ParseDecimalOfDecimal | shared/src/lib.rs:30 | reading the decimal form back yields the original number |
| Text.DecimalInjective | shared/src/lib.rs:30 | different counters have different decimal forms |
| Arenas.NewArena | web/src/utils.rs:90-104 | a new arena has the given id and holds nothing |
| Arenas.Alloc | web/src/utils.rs:34-41 | an allocation yields a token live in the arena and keeps every earlier allocation live |
| Arenas.Reset | web/src/utils.rs:71-72 | after a reset the arena is empty and nothing allocated before it is live |
| Arenas.ReplayAppend | web/src/utils.rs:64-74 | checking two traces in sequence is the same as checking their concatenation, so per-pass safety composes into safety of the whole history |
| Renderer.Attach | web/src/utils.rs:89-113 | `previous` is exactly one tree, the container's content, live in `bump`. `bump_spare` is a different, empty arena. The differ is bound to the container with no calls made. Nothing is scheduled, no frame callback exists and nothing is registered |
| Renderer.ActualEventBinding | web/src/utils.rs:150-182 | each call appends exactly one registration, keeps all earlier ones, allocates its receiver in the pass's arena and returns a one-element slice with the given name and options pointing at the new registration |
| Renderer.UpdateChildNodes | web/src/utils.rs:69 | the differ may only be called while both trees are live, and each call is recorded once, after all earlier calls, with the depth it was given |
| Renderer.BuildView | web/src/utils.rs:55-62 | the new tree is allocated only in the spare arena. It is the view's `P` element whose binding points at the registration made during the pass |
| Renderer.PassEventsReplay | web/src/utils.rs:64-74 | the events of a pass touch only live memory, and only the arena that held the old tree moves to a new generation |
| Renderer.PassEventsOrdered | web/src/utils.rs:64-74 | every allocation of a pass is in the spare arena. The only reset is of the old tree's arena, and it comes after the differ's read of old and new trees and after the store |
| Renderer.RenderPass | web/src/utils.rs:54-75 | from rest to rest. The differ gets the old `previous` and the new tree. `previous` becomes that one new tree, built in the old spare arena, which is never reset in the pass. The old arena is reset and becomes the spare. The pass's events replay safely and in order, and exactly one registration is appended |
| Renderer.Render | web/src/utils.rs:115-118 | a render clears the scheduled flag and runs one pass. When the state is already borrowed by a running pass it fails instead |
| Renderer.ScheduleRender | web/src/utils.rs:120-134 | the frame callback is created on the first call only and reused afterwards. A frame is requested exactly when the flag is clear, and nothing else changes |
| Renderer.Dispatch | web/src/utils.rs:163-173 | a dispatch reads the handler out of a receiver that must still be backed by `bump`. It applies the handler to the model (counter up by one), then schedules a render. The render state and registrations are untouched |
| Renderer.AttachEstablishesInvariant | web/src/utils.rs:44-49 | after `attach`: `previous` lives in `bump`, `bump_spare` is empty, the history replays safely, and every displayed binding reaches a live receiver |
| Renderer.RenderPreservesInvariant | web/src/utils.rs:54-75 | a render from rest always succeeds and re-establishes the invariant, including safe replay of the whole history |
| Renderer.ScheduleRenderPreservesInvariant | web/src/utils.rs:120-134 | scheduling keeps the invariant: at most one frame callback, every requested frame runs it, the flag stays false |
| Renderer.ScheduleRenderAlwaysRequests | web/src/utils.rs:130-133 | since nothing sets the flag, every `schedule_render` call requests one more animation frame |
| Renderer.ScheduleTimesRequestsEach | web/src/utils.rs:120-134 | n back-to-back calls request n frames and create the callback at most once; no coalescing |
| Renderer.DispatchPreservesInvariant | web/src/utils.rs:163-173 | a dispatch keeps the invariant |
| Renderer.ReceiversReclaimedNextPass | web/src/utils.rs:84-85 | registrations are kept forever, but the receiver of a registration made in one pass is backed by neither arena after the next pass |
| Renderer.Step | web/src/utils.rs:115-173 | each of these keeps the invariant: firing a displayed binding, running the oldest requested frame, or the application calling `render` or `schedule_render`. Only a click on a displayed binding changes the model, to `on_click` of it. Every other event leaves the model as it was, and only a click needs the counter below `u32::MAX`. Registrations only grow |
| Renderer.Run | web/src/utils.rs:115-173 | any sequence of host events keeps the invariant and keeps the area. The counter rises by at most the number of clicks in the run, and a run without clicks leaves the model unchanged. No registration is ever removed. Only the clicks are bounded by `u32::MAX`, not the length of the run |
| Renderer.AttachThenRun | web/src/utils.rs:89-173 | from `attach`, every run of application calls, clicks and frames ends in a state satisfying the invariant, provided the clicks do not overflow the counter |
| Renderer.AttachRenderClickFrame | web/src/utils.rs:89-173 | after `attach`, the application's `render` displays one click binding. Firing it raises the counter and requests the one frame callback, and running that frame displays the new caption. No frame is left pending and two registrations exist |
| LegacyRender.Start | web/src/lib.rs:28-31 | before the first pass there is no previous tree, and both arenas are distinct and empty |
| LegacyRender.OldTree | web/src/lib.rs:33-35 | the old tree is the stored previous tree. Without one, it is the container's first child, loaded into `bump_a` |
| LegacyRender.Render | web/src/lib.rs:32-48 | the pass panics exactly when there is no previous tree and the container is empty. Otherwise: the container is loaded exactly when there was no previous tree; the new tree is built in `bump_b`; the diff gets old and new; `previous` becomes `Some(new)`; the arena named `bump_a` afterwards holds it; the reset arena is named `bump_b`. The reset comes after the diff and the store |
| LegacyRender.LegacyPassReplay | web/src/lib.rs:43-47 | a pass's events touch only live memory; only the old `bump_a` moves to a new generation |
| LegacyRender.LegacyPassOrdered | web/src/lib.rs:43-45 | the only reset is of `bump_a`, after the diff and after the store |
| LegacyRender.RenderAll | web/src/lib.rs:32-48 | repeated passes stay at rest and leave the last view as `previous`. Their load count adds one exactly when there was no previous tree and at least one pass ran, so the container is read at most once |
| LegacyRender.LoadedAtMostOnce | web/src/lib.rs:33-35 | once a previous tree exists, no number of further passes loads the container again or panics |
| LegacyRender.StartRendersOnce | web/src/lib.rs:28-54 | `start`'s single pass diffs the body's first child, loaded into `bump_a`, against the view built in `bump_b`, then swaps the arena names |
| LegacyRender.StartPanicsOnEmptyBody | web/src/lib.rs:34 | on a body without children the first pass panics |
| ArtifactTable.Replace | build.rs:42-45 | replacing a character keeps the length and changes exactly the occurrences of that character |
| ArtifactTable.ToUpper | build.rs:46 | upper-casing keeps the length and upper-cases each ASCII letter |
| ArtifactTable.MangleCharacters | build.rs:41-46 | `Mangle`: the identifier has the file name's length; `/`, `.` and `-` become `_`, other characters are upper-cased; none of those three characters and no lower-case ASCII letter remain |
| ArtifactTable.MangleIdempotent | server/build.rs:36 | mangling an identifier again leaves it unchanged |
| ArtifactTable.MangleCollides | server/build.rs:36 | mangling is not injective: `a-b.js` and `a.b-js` get the same identifier |
| ArtifactTable.ArtifactItems | build.rs:40-52 | exactly one constant per artifact, in listing order, named by the mangled file name and including the artifact's full path |
| ArtifactTable.ArtifactArms | build.rs:53-56 | exactly one match arm per artifact, in listing order, keyed by file name and yielding its identifier |
| ArtifactTable.GenerateRoot | build.rs:32-70 | the root script declares only the artifact constants (no `INDEX_HTML`) and the artifact arms |
| ArtifactTable.GenerateServer | server/build.rs:28-58 | the server script declares `INDEX_HTML` for `../web/index.html` before any artifact constant, then the same constants and arms |
| ArtifactTable.RootUniqueNamesIff | build.rs:40-52 | the root script declares each constant name once exactly when no two artifact file names mangle to the same identifier. Otherwise the generated module declares a name twice and does not compile |
| ArtifactTable.ServerUniqueNamesIff | server/build.rs:28-42 | the server script declares each name once exactly when the artifact identifiers are pairwise different and none is `INDEX_HTML`, as an artifact named `index.html` would be |
| ArtifactTable.CollidingArtifactsDuplicateConstant | build.rs:41-52 | artifacts `a-b.js` and `a.b-js` in one directory make the root script declare the same constant twice |
| ArtifactTable.LookupArtifact | build.rs:59-70 | the generated `artifact(name)` (`Lookup` over the arms) returns `Some` of the mangled identifier exactly when `name` is an artifact's file name, and `None` for every other input |
| ArtifactTable.FullPathIsNotAKey | build.rs:41 | the table is keyed by file name only: an artifact's full path finds nothing |
| ArtifactTable.RootSources | build.rs:100-110 | the root script's sources are exactly the five fixed entries joined onto the web crate path, in order |
| ArtifactTable.JoinInjective | build.rs:100-110 | `Join` (`Path::join`): joining onto one base keeps different relative entries apart |
| ArtifactTable.RootSourcesDistinct | build.rs:100-110 | the five watched sources are pairwise different |
| ArtifactTable.RootRerunLines | build.rs:9-18 | the root script watches `build.rs` and then each source once, by its plain path |
| ArtifactTable.ServerWatchesQuotedPaths | server/build.rs:15-17 | as written, the server script makes cargo watch each source's path in double quotes, never the path itself |
| ArtifactTable.ServerRerunLines | server/build.rs:87-96 | corrected: the server script watches `build.rs` and then exactly the four fixed `../web/...` paths |
| StaticServer.ArtifactKey | src/main.rs:36-38 | the lookup key is the request path without its leading `/` |
| StaticServer.Handle | src/main.rs:35-52 | the status is always 200. A found artifact is served as its bytes. The handler inserts `application/javascript` for `.js`, else `application/wasm` for `.wasm`, else no Content-Type header. Anything else gets `text/html` and the index page |
| StaticServer.WasmIsNotJs | src/main.rs:40-43 | a path ending in `.wasm` does not end in `.js`, so the order of the two suffix tests does not matter |
| StaticServer.ServesGeneratedTable | src/main.rs:38-51 | for a generated table that compiles (no two artifact names mangle alike), `/<name>` returns the bytes of the constant mangled from `name` exactly when `name` is an artifact file name. `.wasm` files are labelled as WebAssembly, and every other path gets the index page |
| StaticServer.DistinctNamesDistinctConstants | src/main.rs:38 | in a table that compiles, two different artifact names are served from two different constants |
| StaticServer.RootServesIndex | src/main.rs:36-51 | for a generated table that compiles, the site root always gets the index page |

## Left out

- The DOM differ and loader (`DomDiffer::update_child_nodes`, `update_child_nodes`, `load_element`) are foreign code. The differ is a log of the calls it receives, and its only requirement is that its input trees are live. What the loader reads is a field of the container.
- Raw memory, `transmute`, `NonNull`, `Pin` and `Box::leak` are replaced by arena ids, generations and tokens. The receiver's pointer back to the renderer is implicit: there is one renderer.
- Browser and wasm plumbing are not modelled: `wasm_bindgen` closures, `request_animation_frame`, `web_sys::window`, the panic hook, `wee_alloc`, and console and `log` output. A requested frame is an entry in `requestedFrames`, and the host runs the oldest one as a step.
- The host only delivers events to listeners of the displayed tree (`Renderer.Step`). How listeners are attached to the document belongs to the differ, which is foreign code.
- Networking is not modelled: the TCP accept loop, `async_h1`, task spawning, the dotenv configuration and the request log line. Only the per-request decision is modelled, and the artifact lookup and the index page are parameters.
- Build I/O is not modelled: running `wasm_pack`, `fs::read_dir`, writing the generated file and the other cargo output lines. The generated file is modelled by the constants and match arms it declares, not by its text.
- `load_element` returns content that may hold several nodes, but the node type here has a single content child. Element creation options are also not modelled.
- The old `web/src/lib.rs` calls `view` and `Model` with signatures that `shared/src/lib.rs` no longer has. Its view result is a parameter of each pass. The `Mutex` around its closure is not modelled, since the closure runs once, single-threaded.
- ArtifactTable.ToUpper: upper-cases ASCII letters only. Rust's `to_uppercase` also maps non-ASCII letters, some of them to several characters. The artifact names wasm-pack produces are ASCII.
- ArtifactTable.Replace: models `replace` only for a single character replaced by a single character, which is the only form the scripts use.
- ArtifactTable.DebugQuoted: escapes only `"` and `\`. Rust's `Debug` for paths also escapes control characters, and none of the four fixed sources contains one.
- StaticServer.ServesGeneratedTable and StaticServer.RootServesIndex: stated only for a generated table that compiles. When two artifact names mangle alike, no server is built, as `ArtifactTable.RootUniqueNamesIff` and `ArtifactTable.ServerUniqueNamesIff` state.
- StaticServer.Handle: states only the headers the handler inserts. When none is inserted, the HTTP library's `Response::set_body` fills in a Content-Type from the body, `application/octet-stream` for bytes. That library is not part of this model.
- Renderer.Dispatch and Shared.OnClick: `u32` overflow of the counter is excluded by a precondition rather than modelled as a panic.
- Renderer.AttachEstablishesInvariant: assumes the container's loaded content carries no event bindings, since it is read from the live document. The loader that guarantees this is foreign code.

## Findings

| source | as written | input that shows it | evidently intended | confidence | as-written member | corrected member |
|---|---|---|---|---|---|---|
| server/build.rs:15-17 | each watched source is printed with `{:?}`, so the path reaches cargo inside double quotes | source `../web/index.html` gives `cargo:rerun-if-changed="../web/index.html"`, which names a file whose name contains quote characters | the plain path, as build.rs:16-18 prints it through `to_str` | medium; not executed | ArtifactTable.ServerWatchesQuotedPaths | ArtifactTable.ServerRerunLines |
