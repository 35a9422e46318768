# Virtual try-on: outfit layering, pose stepping and the image gateway

This project is a Dafny model of the core of a browser-based virtual try-on studio. A user
finalises a photo of a model, then puts garments on it one at a time. Each step is a
*layer* that records the garment and every pose image generated for it. The user can:

- step back, which keeps the layer above as a *redo candidate*;
- re-select that redo candidate for free;
- branch off with a different garment, which discards the layers above the cursor;
- request one of six catalogue poses for the active layer.

Image generation runs behind a server-side handler. It checks the request, cuts the data
URLs into inline image parts, and reads the model's reply into a data URL or an error.

The model is split into these modules:

- **Types**: `Option`, JavaScript truthiness of an optional string, the settled outcome
  of a gateway call, garment and file records.
- **Lists**: `indexOf` on sequences.
- **PoseMaps**: a layer's `poseImages` object. It is an association list kept in key
  insertion order, because `Object.keys` and `Object.values` expose that order.
- **Outfit**: the pose catalogue, layers, the default wardrobe, the memoised views
  (active layers, active garment ids, displayed image, available poses), the shape
  invariant `WellFormed`, and the wardrobe update.
- **Session**: the `App` state cells as a class `TryOnSession`. Every awaited handler
  is split in two. `Begin…` runs up to the `await` and returns the call it issues, or
  None. `Complete…` is the continuation and gets the call's settled outcome. The call
  record holds what the continuation's closure captured. The continuation reads the
  live state where the source passes an updater function to a setter.
- **Scenarios**: whole sessions driven through the handlers, including two
  interleavings that happen because removing a garment and starting over are not
  behind the loading gate. A third interleaving, through a stale wardrobe click, is
  not modelled (see "## Left out").
- **Canvas**: the previous/next pose arrows and the pose-menu guard.
- **WardrobePanel**: the wardrobe item click, the upload handler and their error cell.
- **Text**: `split` with a one-character separator, indexing into the pieces, `startsWith`,
  and the decimal rendering of a number in a template literal.
- **GeminiApi**: the edge function's request check, part assembly, reply reading and
  status mapping. Data URLs follow section 3 of RFC 2397.

Behaviour worth knowing, as the model shows it:

- **Remove during a try-on.** Removing the last garment is not behind the loading gate.
  If the user removes a garment while a try-on is pending, the try-on appends its layer
  after the layer that was active when it began. It then moves the live cursor up by
  one, which leaves the cursor below the new layer (`Scenarios.RemoveWhileTryOnPending`).
- **Start over during a try-on.** Starting over is not behind the gate either. A try-on
  that completes afterwards leaves a history with no root layer
  (`Scenarios.StartOverWhileTryOnPending`).
- **Empty strings are falsy.** An empty image reference counts as "no image" wherever
  the source tests truthiness. An empty garment id is dropped from the active ids.

## Model

| member | source | states |
|---|---|---|
| Lists.IndexOf | components/Canvas.tsx:35 | `indexOf`: -1 exactly when absent; otherwise an index holding the element with no earlier occurrence |
| PoseMaps.Get | App.tsx:78 | lookup is defined exactly for present keys, returns a stored image, and with distinct keys returns the image under that key |
| PoseMaps.FirstValue | App.tsx:170 | `Object.values(m)[0]` is defined exactly for a non-empty map and is the image of the first key assigned |
| PoseMaps.Singleton | App.tsx:91 | a one-entry pose object has that single key and yields the image under it |
| PoseMaps.Put | App.tsx:185 | assignment stores the image under the key, leaves every other key's image alone, keeps key order for an existing key, appends a new key last, and keeps keys distinct |
| PoseMaps.PutNewKeyExtends | App.tsx:185 | a new pose extends the map at the end, so earlier values and the first value are unchanged |
| Outfit.CatalogueShape | App.tsx:20-27 | the pose catalogue has six distinct instructions |
| Outfit.ActiveLayers | App.tsx:62-65 | the active layers are a prefix of the history ending at the cursor, or the whole history when the cursor is past it |
| Outfit.GarmentIds | App.tsx:68 | an id is listed exactly when some layer carries a garment with that non-empty id |
| Outfit.GarmentIdsKeepAll | App.tsx:68 | when every layer has a garment with a non-empty id, the ids are those of the layers, one for one and in order |
| Outfit.ActiveGarmentIdsInOrder | App.tsx:67-70 | on a well-formed history the active ids are the garments from layer 1 up to the cursor, in the order applied, with the root excluded |
| Outfit.ActiveGarmentIds | App.tsx:67-70 | definition: the garment ids of the active layers; `Outfit.GarmentIds` gives its membership and `Outfit.ActiveGarmentIdsInOrder` its order |
| Outfit.ActiveLayer | App.tsx:74 | definition: `outfitHistory[currentOutfitIndex]`, undefined past the end; used by `Outfit.DisplayImage` and `Outfit.AvailablePoseKeys` |
| Outfit.DisplayImage | App.tsx:72-79 | the displayed image is the model image when no layer is active, else the active layer's image for the current pose when cached, else its first image; it exists exactly when that layer holds any image |
| Outfit.AvailablePoseKeys | App.tsx:81-85 | the available poses are the active layer's keys in insertion order, oldest first, so exactly the cached poses without repeats; none without an active layer |
| Outfit.GeneratedPoseListedLast | App.tsx:84 | a pose newly generated for the active layer is listed last, after the earlier poses in their order |
| Outfit.AddGarment | App.tsx:138-143 | the wardrobe is unchanged exactly when the id was already present, and otherwise gains the garment record itself at the end; it ends up holding the id and keeps ids unique |
| Outfit.AddGarmentIdempotent | App.tsx:138-143 | adding the same garment twice equals adding it once |
| Outfit.RootLayer | App.tsx:89-92 | definition: no garment and the model image under the first pose; used by the contract of `Session.TryOnSession.FinalizeModel` |
| Outfit.GarmentLayer | App.tsx:127-130 | definition: the garment and the new image under the captured pose; used by the contract of `Session.TryOnSession.CompleteGarmentSelect` |
| Outfit.IsRedoCandidate | App.tsx:112-113 | definition: the layer after the cursor exists and carries a garment with the same id; used by the contract of `Session.TryOnSession.BeginGarmentSelect` |
| Outfit.PoseSelectIgnored | App.tsx:160 | definition: loading, an empty history, or the pose already selected; used by the contract of `Session.TryOnSession.BeginPoseSelect` |
| Session.TryOnSession.constructor | App.tsx:51-60 | the initial state cells, with the default wardrobe; the state is well formed |
| Session.TryOnSession.FinalizeModel | App.tsx:87-95 | the history becomes the single root layer holding the model image under the first pose, with the cursor on it; the pose cursor is kept |
| Session.TryOnSession.StartOver | App.tsx:97-107 | every state cell back to its initial value, wardrobe included |
| Session.TryOnSession.BeginGarmentSelect | App.tsx:109-121 | no display image or loading means a no-op; a redo candidate with the same id means a free step forward with the pose reset; otherwise the error is cleared, loading is raised and a call is issued on the displayed image with cursor and pose captured; well-formedness kept |
| Session.TryOnSession.CompleteGarmentSelect | App.tsx:123-149 | on success the history is cut after the captured layer and the new layer appended, the live cursor moves up by one, and the wardrobe gains the garment; on failure only the error changes; loading drops; with an undisturbed cursor it lands on the new last layer and well-formedness is kept |
| Session.TryOnSession.RemoveLastGarment | App.tsx:152-157 | the cursor steps back with the pose reset unless it is on the root; the history is kept; well-formedness kept |
| Session.TryOnSession.BeginPoseSelect | App.tsx:159-178 | ignored while loading, without history or for the current pose; a cached pose is a cursor move; without a truthy base image nothing happens; otherwise the pose moves at once and a call is issued on the layer's first image with the previous pose captured |
| Session.TryOnSession.CompletePoseSelect | App.tsx:180-194 | on success the image is stored under the instruction in the captured layer, and no other layer or pose changes; on failure the pose reverts and the error is set; loading drops; well-formedness kept |
| Scenarios.DressedSession | App.tsx:87-150 | finalising and then a successful try-on gives history [root, garment layer] with the cursor on the garment |
| Scenarios.EndToEnd | App.tsx:87-195 | try on, change pose, remove, re-select: the pose image is shown, removal shows the model again, re-selection issues no call and shows the try-on image, and the layer keeps both poses in order |
| Scenarios.FailedTryOn | App.tsx:144-149 | a failed try-on leaves history and cursor as they were, sets the error and drops loading |
| Scenarios.BranchTruncation | App.tsx:132-135 | applying a different garment after stepping back discards the layer above and puts the cursor on the new one |
| Scenarios.RemoveWhileTryOnPending | App.tsx:132-136 | a removal during a pending try-on leaves the cursor one below the appended layer, which becomes the redo candidate |
| Scenarios.StartOverWhileTryOnPending | App.tsx:97-136 | a try-on that completes after start over leaves a history whose only layer carries a garment and a cursor past its end |
| Canvas.Previous | components/Canvas.tsx:32-49 | no move while loading or with fewer than two generated poses; one catalogue step back from an ungenerated pose; from a generated pose it stays among generated poses |
| Canvas.Next | components/Canvas.tsx:51-72 | no move while loading; one catalogue step forward from an ungenerated pose or from the last generated one |
| Canvas.CircularDecrement | components/Canvas.tsx:42 | `(i - 1 + n) % n` is the circular predecessor |
| Canvas.CircularIncrement | components/Canvas.tsx:57 | `(i + 1) % n` is the circular successor |
| Canvas.PreviousStepsBackInAvailable | components/Canvas.tsx:42-47 | from a generated pose, Previous always moves, to the pose generated just before it, wrapping from first to last |
| Canvas.NextStepsForwardInAvailable | components/Canvas.tsx:61-67 | from a generated pose that is not the last generated, Next moves to the pose generated right after it |
| Canvas.PreviousUndoesNext | components/Canvas.tsx:32-72 | Next then Previous returns to the start pose while both stay among generated poses |
| Canvas.NextUndoesPrevious | components/Canvas.tsx:32-72 | Previous then Next returns to the start pose when it is not the first generated |
| Canvas.SessionPosesFromCatalogue | App.tsx:81-85 | in a well-formed session the active layer's generated poses are distinct catalogue poses, the premise of the arrow lemmas |
| Canvas.SessionArrowsRoundTrip | components/Canvas.tsx:51-72 | on the session's catalogue and layer, Next then Previous from a generated pose that is not the last one generated returns to it |
| Canvas.DisabledButtonIsIgnored | components/Canvas.tsx:129 | a disabled pose-menu button would be ignored by the pose handler anyway |
| Canvas.MenuButtonDisabled | components/Canvas.tsx:129 | definition: loading or the current pose; tied to the pose handler by `Canvas.DisabledButtonIsIgnored` |
| Text.Split | supabase/functions/gemini-api/index.ts:54 | `split` gives at least one piece, no piece holds the separator, and joining the pieces gives the input back |
| Text.SplitJoin | supabase/functions/gemini-api/index.ts:54 | splitting a join of separator-free pieces returns those pieces |
| Text.Piece | supabase/functions/gemini-api/index.ts:54 | `split(sep)[k]` is undefined exactly when there are at most k pieces, and is otherwise separator-free |
| Text.Decimal | components/WardrobeModal.tsx:74 | a number renders as at least one decimal digit |
| Text.DecimalInjective | components/WardrobeModal.tsx:74 | different numbers render differently |
| Text.StartsWith | components/WardrobeModal.tsx:69 | definition: `startsWith` as a prefix test; used by the contract of `WardrobePanel.FileChange` |
| WardrobePanel.GarmentClick | components/WardrobeModal.tsx:53-64 | an item is selected exactly when it is neither loading-blocked nor active and its file was obtained; the error is cleared on success, set to the conversion message on failure, and kept when ignored |
| WardrobePanel.IsActive | components/WardrobeModal.tsx:90 | definition: the item id is among the active garment ids; used by `WardrobePanel.ItemDisabled` |
| WardrobePanel.ItemDisabled | components/WardrobeModal.tsx:95 | definition: loading or active; the contract of `WardrobePanel.GarmentClick` shows a disabled item is never selected |
| WardrobePanel.FileChange | components/WardrobeModal.tsx:66-80 | a file is selected exactly when there is one and its type starts with `image/`; a non-image sets the error; the custom record keeps the file name and object URL and has a `custom-` id |
| WardrobePanel.CustomGarment | components/WardrobeModal.tsx:73-77 | definition: a `custom-` id from the clock reading, the file name and the object URL; used by `WardrobePanel.FileChange`, `WardrobePanel.CustomIdsDiffer` and `WardrobePanel.CustomIdIsKept` |
| WardrobePanel.CustomIdsDiffer | components/WardrobeModal.tsx:74 | uploads at different clock readings get different ids |
| WardrobePanel.CustomIdIsKept | components/WardrobeModal.tsx:74 | a custom id is non-empty, so the active-id filter keeps it, and never equals a default item's id |
| GeminiApi.PosePrompt | supabase/functions/gemini-api/index.ts:71 | the pose prompt embeds the instruction verbatim after the fixed lead |
| GeminiApi.ImagePart | supabase/functions/gemini-api/index.ts:54 | the cut-out media type contains no `:` or `;` and the data no `,`; each is present exactly when its separator occurs |
| GeminiApi.BuildParts | supabase/functions/gemini-api/index.ts:49-80 | for each action the required fields, their error message, and the parts in order (images, then the prompt); any other action is "Invalid action" |
| GeminiApi.FirstImagePart | supabase/functions/gemini-api/index.ts:109 | the first part carrying `inlineData` or `inline_data`, present exactly when one exists |
| GeminiApi.FirstImage | supabase/functions/gemini-api/index.ts:108-124 | the image of the first candidate that has one, present exactly when some candidate does |
| GeminiApi.HasImage | supabase/functions/gemini-api/index.ts:109 | definition: the part has `inlineData` or `inline_data`; used by the contract of `GeminiApi.FirstImagePart` |
| GeminiApi.CandidateImage | supabase/functions/gemini-api/index.ts:109-111 | definition: the candidate's first image part, its `inlineData` preferred over `inline_data`; used by `GeminiApi.FirstImage` |
| GeminiApi.FindImage | supabase/functions/gemini-api/index.ts:108-124 | the candidate loop with early return computes the first candidate image |
| GeminiApi.Interpret | supabase/functions/gemini-api/index.ts:103-131 | a block reason always fails with the reason and the message (or nothing when the message is falsy); success holds exactly when unblocked with some image, and returns the first image's data URL; otherwise the finish-reason rule picks the message |
| GeminiApi.Interpolated | supabase/functions/gemini-api/index.ts:115 | definition: an undefined value interpolates as "undefined"; used by `GeminiApi.ImageUrl` |
| GeminiApi.DataUrl | supabase/functions/gemini-api/index.ts:115 | definition: `data:<type>;base64,<data>`; used by `GeminiApi.ImageUrl` and `GeminiApi.DataUrlRoundTrip` |
| GeminiApi.ImageUrl | supabase/functions/gemini-api/index.ts:111-115 | definition: `mimeType || mime_type` and the data, formatted as a data URL; used by `GeminiApi.Interpret` and `GeminiApi.ReturnedImageFeedsBack` |
| GeminiApi.Blocked | supabase/functions/gemini-api/index.ts:103 | definition: a truthy `promptFeedback.blockReason`; used by `GeminiApi.Interpret` |
| GeminiApi.Candidates | supabase/functions/gemini-api/index.ts:108 | definition: `candidates ?? []`; used by `GeminiApi.Interpret` |
| GeminiApi.StoppedEarly | supabase/functions/gemini-api/index.ts:126-127 | definition: the first candidate has a truthy finish reason other than STOP; used by `GeminiApi.Interpret` |
| GeminiApi.Handle | supabase/functions/gemini-api/index.ts:19-145 | preflight gets an empty 200; the key, body, endpoint and reply errors each give 500 with their message in that order; an image, and only an image, gives 200 with its URL |
| GeminiApi.RejectedBodyIgnoresModel | supabase/functions/gemini-api/index.ts:49-80 | a rejected body's reply does not depend on anything the model could answer |
| GeminiApi.BlockedNeverYieldsImage | supabase/functions/gemini-api/index.ts:103-106 | a blocked prompt never gets an image reply, whatever the candidates hold |
| GeminiApi.DataUrlRoundTrip | supabase/functions/gemini-api/index.ts:115 | a data URL in the handler's output format is cut back into its media type and data |
| GeminiApi.ReturnedImageFeedsBack | supabase/functions/gemini-api/index.ts:111-115 | a returned image sent back as the next base image reaches the model with its media type and data intact |

## Left out

- Rendering, layout, animation, `isMobile`, the sheet collapse flag and `loadingMessage`: these are display-only cells.
- `getFriendlyErrorMessage`: the message that reaches the error cell is part of the failed gateway outcome.
- The client gateway wrappers in services/geminiService.ts and the client in lib/supabase.ts are not part of this model. A gateway call is an outcome supplied to the `Complete…` continuation.
- StartScreen, Header, Footer and OutfitStack are not part of this model, beyond their use of the core's handlers and views.
- Converting a wardrobe item's URL to a file, `URL.createObjectURL` and `Date.now`: browser calls, modelled as parameters.
- Edge function I/O: the HTTP server, the database lookup of the API key (a parameter), JSON decoding of the request, the `fetch` call (its answer is a parameter), CORS headers and logging. A request body that fails to decode is not modelled, and neither is a body field that is not a string.
- The wording of the three prompts: only the pose prompt's lead and the embedded instruction are kept; the rest are placeholders.
- `useCallback`, `useMemo` and React batching are not modelled. Each continuation reads the values its closure captured, and setters with updater functions read the live state.
- Session.TryOnSession.BeginGarmentSelect: reads the live loading flag and display image. In the source, `handleGarmentClick` awaits the file conversion and then calls the `onGarmentSelect` of the render in which the item was clicked. That closure can still see `isLoading` false. So two quick item clicks, or a click followed by a pose select, can put two gateway calls in flight, and after two try-ons the cursor can end past the history. The model does not capture this stale-closure path.
- Session.TryOnSession.CompletePoseSelect: when the captured layer index no longer exists (a start over while the call was pending), the source's state updater throws; the model leaves the history unchanged instead.
- Session.TryOnSession.CompletePoseSelect: the source assigns into the layer's existing `poseImages` object in place, which is shared with the previous history array. The model builds a new layer value, so that aliasing is not captured.
- Session.TryOnSession.BeginPoseSelect: the source accepts any number and reads `POSE_INSTRUCTIONS[newIndex]`; the model takes a catalogue index, since every caller passes one. A cursor past the history makes the source throw before any update, which the model treats as a no-op.
