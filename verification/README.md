# STARBORN engine core, modelled in Dafny

This project models the non-graphical core of the STARBORN game engine (the
starmans-odyssey repository, C++). It covers the following parts:

- **glTF model loading** (`Model::load_model`, `process_node`, `process_mesh`,
  `load_material_textures`):
  - choosing the binary or text parser from the file name;
  - rejecting a parse that warned, erred or failed;
  - picking the scene and walking its nodes depth first;
  - turning every primitive into vertices, 32-bit indices and textures.
- **Textures**: construction from in-memory pixels and from a file. This
  includes the emptiness and channel-count checks and the pixel format
  handed to OpenGL.
- **Materials**: the PBR material record and `Material::apply`. `apply` is
  modelled as the exact sequence of OpenGL and uniform calls it makes. An
  interpreter of that sequence gives the uniform values and texture units it
  leaves behind.
- **Scene manager**: the registry of named scenes, the active and pending
  scene pointers, and the deferred transition of `update`. Scene objects are
  identities, and the virtual calls made on them are returned as a trace.
- **GLFW input singleton**: key and button levels and edges, the cursor and
  its delta, the scroll offset, and listener registration. A listener
  invocation is modelled as a notice, in registration order.
- **SDL input class**: fixed key and button arrays, the event-draining loop
  of `process_events`, and the edge and level queries.
- **Dynamic matrix**: shapes, error conditions and computed entries of every
  operation, with entries as reals.

Exceptions become `Err` values of a `Result` type. Foreign libraries, OpenGL
and the clock become parameters or traces:

- a glTF file is an already-parsed `Document`;
- a parser call is its reported outcome;
- an image decode is its result;
- the iteration order of an `unordered_map` is a permutation of its keys.

Files, one module each:

- `results.dfy` holds `Option` and `Result`.
- `bytes.dfy` holds little-endian byte encoding.
- `gltf_document.dfy`, `gltf_scene.dfy`, `gltf_mesh.dfy` and `gltf_model.dfy`
  hold the loader.
- `texture.dfy` holds textures.
- `material.dfy` holds materials.
- `scene_manager.dfy` holds the scene manager.
- `glfw_input.dfy` holds the GLFW input singleton.
- `sdl_input.dfy` holds the SDL input class.
- `matrix.dfy` holds the dynamic matrix.

The loader's code departs from glTF 2.0 and from its own documentation in
these ways, and the model follows the code:

- a buffer view's stride is ignored;
- a missing NORMAL or TEXCOORD_0 attribute is an error, not a default;
- a primitive with no vertices yields an empty mesh;
- indices are not checked against the vertex count;
- there is no texture cache, so every slot decodes its image anew;
- the base-color texture is never loaded (see Findings).

## Model

Some members only transcribe a source expression and carry no row:
`SdlInput.IsKeyDown`, `SdlInput.IsButtonDown`, `SdlInput.IsButtonUp`,
`SdlInput.IsButtonHeld`, `GlfwInput.KeyDown`, `GlfwInput.KeyPressed`,
`GlfwInput.KeyReleased`, `GlfwInput.ButtonDown`, `GlfwInput.ButtonPressed`,
`GlfwInput.ButtonReleased`, `GlfwInput.CursorDelta`, `GltfScene.SceneIndex`,
`GltfModel.Extension` and `GltfModel.ChooseLoader`. Their meaning is stated by
`SdlInput.KeyEdgesOverFrame`, `SdlInput.ButtonEdgesOverFrame`,
`GlfwInput.EdgesExclusive`, `GlfwInput.FrameKeyEdges`, `GlfwInput.OnCursor`,
`GltfScene.SceneNodes` and `GltfModel.BinaryIffGlbSuffix`.

| member | source | states |
|---|---|---|
| Bytes.LittleEndian | src/Engine/Model.cpp:120-145 | the value read from `n` bytes, least significant first, is below 256^n |
| Bytes.DecodeEncode | src/Engine/Model.cpp:122-145 | reading back the `w`-byte little-endian encoding of a value below 256^w gives the value |
| Bytes.EncodeDecode | src/Engine/Model.cpp:122-145 | re-encoding the value read from a byte string reproduces the byte string, so the encoding is a bijection |
| GltfScene.PreOrder | src/Engine/Model.cpp:45-58 | over an acyclic hierarchy the walk terminates, visits at least as many nodes as there are roots, and visits only nodes of the document |
| GltfScene.PreOrderAppend | src/Engine/Model.cpp:38-41 | walking roots `a` then `b` is the walk of `a` followed by the walk of `b` |
| GltfScene.RevisitedRootsAreWalkedAgain | src/Engine/Model.cpp:54-57 | nothing remembers visited nodes: a root listed twice is walked twice, doubling the visit list |
| GltfScene.NodeBeforeChildren | src/Engine/Model.cpp:45-58 | a node is visited before its subtrees, and the subtrees follow one child after another in array order |
| GltfScene.PreOrderWithStack | src/Engine/Model.cpp:45-58 | an explicit-stack walk visits exactly the nodes of the recursive walk, in the same order |
| GltfScene.SceneNodes | src/Engine/Model.cpp:34-41 | the nodes handed to `process_node` from the chosen scene's roots all reference an existing mesh or none |
| GltfMesh.AssembleVertices | src/Engine/Model.cpp:86-111 | one vertex per element of the position accessor |
| GltfMesh.VerticesAreTightlyPacked | src/Engine/Model.cpp:71-111 | re-serialising the vertices reproduces exactly the first 12n, 12n and 8n bytes of the position, normal and texture-coordinate data, in order |
| GltfMesh.IndexWidth | src/Engine/Model.cpp:122-149 | an index width exists iff the component type is u8, u16 or u32: u8 reads 1 byte, u16 2 bytes and u32 4 bytes, each fitting in 32 bits |
| GltfMesh.DecodeIndices | src/Engine/Model.cpp:117-149 | error iff the component type is not u8/u16/u32; otherwise `count` indices, each below 256^width, index j being the little-endian value of the `width` bytes at the stream's start plus j·width |
| GltfMesh.IndicesRoundTrip | src/Engine/Model.cpp:117-145 | decoding an encoded index buffer that sits anywhere inside a glTF buffer, read from its own offset, gives back the encoded indices, for every accepted component type |
| GltfMesh.IndexWidthIrrelevant | src/Engine/Model.cpp:117-145 | the same indices stored as u8, u16 or u32, at any offset of any buffer, decode to identical 32-bit sequences |
| GltfMesh.IdentityIndices | src/Engine/Model.cpp:150-154 | without an index accessor the indices are 0..n-1, converted to `unsigned int` (so equal to i when n <= 2^32) |
| GltfMesh.LoadMaterialTextures | src/Engine/Model.cpp:201-233 | no texture for an empty slot or an unknown kind name; otherwise exactly the one texture built from the slot's image, or that build's error |
| GltfMesh.AlbedoNeverLoads | src/Engine/Model.cpp:164-166 | the base-color request asks for the kind "albedo", which is unknown, so it yields nothing for every material |
| GltfMesh.CollectSlotsSpec | src/Engine/Model.cpp:168-190 | collecting over slot kinds appends exactly the textures of the filled slots in slot order, or reports the first build failure |
| GltfMesh.MaterialTexturesInSlotOrder | src/Engine/Model.cpp:160-191 | a mesh's textures are those of the filled metallic-roughness, normal, occlusion and emissive slots in that order; never the base color; the first failure aborts |
| GltfMesh.PrimitiveVertices | src/Engine/Model.cpp:71-111 | a primitive with all three attributes gets one vertex per position element |
| GltfMesh.PrimitiveIndices | src/Engine/Model.cpp:117-154 | a primitive without an index accessor gets the identity indices for its vertex count |
| GltfMesh.ProcessMesh | src/Engine/Model.cpp:61-198 | a missing POSITION, NORMAL or TEXCOORD_0 (checked in that order) is an error; then an unsupported index type is `InvalidIndicesType`, before any texture is built; then a texture build failure is reported as such; otherwise the mesh holds the primitive's vertices, indices and material textures |
| GltfMesh.SynthesisedIndicesNameVertices | src/Engine/Model.cpp:150-154 | without an index accessor there are as many indices as vertices, each names a vertex, and index i is i |
| GltfMesh.StrideIgnored | src/Engine/Model.cpp:71-84 | changing any buffer view's byte stride changes nothing in the mesh built |
| GltfMesh.IndicesNotRangeChecked | src/Engine/Model.cpp:117-145 | a one-vertex primitive whose u8 index buffer holds 5 still yields a mesh, with index 5 |
| GltfMesh.MaterialTexturesIntended | src/Engine/Model.cpp:160-191 | with the corrected base-color request, a primitive without a material still gets no textures |
| GltfMesh.IntendedKindsFilled | src/Engine/Model.cpp:164-190 | the filled slots of the corrected collection are the base color (when filled) followed by the as-written ones |
| GltfMesh.BaseColorLoadsFirst | src/Engine/Model.cpp:164-166 | corrected: a filled base-color slot yields its texture first, typed "texture_diffuse", followed by exactly the as-written textures; its build failure is reported; with no base color both agree |
| GltfModel.FindLastDot | src/Engine/Model.cpp:26 | npos iff the path has no '.'; otherwise the position of the last '.' |
| GltfModel.BinaryIffGlbSuffix | src/Engine/Model.cpp:26-27 | the binary parser is chosen iff the path ends in ".glb" or, through the npos+1 wrap-around, is exactly "glb" |
| GltfModel.ProcessAll | src/Engine/Model.cpp:38-41 | success iff every primitive converts, giving one mesh per primitive in order; on failure the error is that of the first failing primitive |
| GltfModel.PushMeshes | src/Engine/Model.cpp:45-58 | the meshes already held stay in front; with no failing outcome one mesh per outcome is appended in order; otherwise the walk stops at the first failure, whose error it reports, after appending the meshes of every outcome before it |
| GltfModel.PushAllConverted | src/Engine/Model.cpp:45-58 | when every primitive converts, the walk appends exactly the meshes `ProcessAll` gives and reports no failure |
| GltfModel.PushStopsAtFailure | src/Engine/Model.cpp:45-58 | when some primitive fails, the walk reports the error of the first failing one, as `ProcessAll` does |
| GltfModel.LoadScene | src/Engine/Model.cpp:37-58 | the meshes held before stay in front; no exception iff every primitive converts, and then exactly their meshes are appended; otherwise the first failure is thrown |
| GltfModel.FailedLoadKeepsBuiltMeshes | src/Engine/Model.cpp:50 | a walk that throws leaves the meshes of the primitives before the failing one appended, in order, after the ones held before |
| GltfModel.LoadModel | src/Engine/Model.cpp:16-58 | a warning aborts first, then an error text, then a false return ("Failed to load glTF model: " + path), each leaving the meshes held unchanged; otherwise the chosen scene's walk appends to them as `GltfModel.LoadScene` states |
| GltfModel.LoadingTwiceAccumulates | src/Engine/Model.cpp:16-58 | `meshes_` is never cleared: loading two files that both convert leaves the first file's meshes followed by the second's |
| Textures.FormatForChannels | src/Engine/Texture.cpp:34-43 | a format exists iff there are 1, 3 or 4 channels, and it carries that many channels |
| Textures.FormatChannelsRoundTrip | src/Engine/Texture.cpp:34-43 | each format is chosen for exactly its own channel count |
| Textures.FromMemory | src/Engine/Texture.cpp:15-48 | empty data is rejected first, then an unsupported channel count; otherwise the texture keeps every argument and uploads the data with matching internal and pixel formats |
| Textures.FromFile | src/Engine/Texture.cpp:62-75 | an undecodable file is the only error; otherwise the decoded width, height and pixels are uploaded, as RGBA iff 4 channels and RGB for any other count, with mipmaps generated |
| Textures.FileAndMemoryUploads | src/Engine/Texture.cpp:15-75 | both paths upload a 3- or 4-channel image identically but for the mipmaps; a 1-channel image is RED from memory and RGB from a file; other counts are rejected from memory and uploaded as RGB from a file |
| Materials.RunAppend | src/Engine/Material.cpp:8-56 | running two call sequences one after the other is running their concatenation |
| Materials.ScalarCalls | src/Engine/Material.cpp:10-17 | eight uniform writes, named as in the source and in its order; the five factors are written verbatim; of the three alpha-mode flags exactly one is 1, the one naming the material's mode |
| Materials.FlagCalls | src/Engine/Material.cpp:20-24 | one presence flag per slot, in slot order, 1 iff the slot holds a texture |
| Materials.Apply | src/Engine/Material.cpp:8-56 | at least the 13 uniform writes come first, before any texture binding |
| Materials.ConsistentWrites | src/Engine/Material.cpp:8-56 | a uniform written only with one value ends up with that value when written at all, and keeps its old value otherwise |
| Materials.BindAllWrites | src/Engine/Material.cpp:27-55 | the binding calls write only the samplers of present slots, each with its slot's unit |
| Materials.ApplyUniforms | src/Engine/Material.cpp:8-56 | scalars verbatim; exactly one alpha-mode flag is 1, the one of the material's mode; each presence flag is 1 iff its slot holds a texture; a present slot's sampler names its unit; an absent slot's sampler is untouched |
| Materials.SamplerNamesDistinct | src/Engine/Material.cpp:27-55 | different slots have different sampler uniform names |
| Materials.LastPresent | src/Engine/Material.cpp:27-55 | some texture iff some slot holds one; it is the texture of the last such slot |
| Materials.BindsAsWritten | src/Engine/Texture.cpp:81-84 | because `bind()` re-activates unit 0, the binding calls leave every other unit unchanged and unit 0 holding the last present texture |
| Materials.BindsAsIntended | src/Engine/Material.cpp:27-55 | without the switch back to unit 0, each present texture ends up on its own slot's unit and no other unit changes |
| Materials.ApplyBindsOnUnitZero | src/Engine/Material.cpp:27-55 | after `apply` as written, only unit 0 can have changed, and it holds the last present texture |
| Materials.ApplyIntendedBindsEachOnItsUnit | src/Engine/Material.cpp:27-55 | corrected `apply`: every present slot's sampler names a unit holding that slot's texture, and the uniforms are as for `apply` |
| Materials.NormalMapSampledFromEmptyUnit | src/Engine/Material.cpp:39-43 | as written, a material with only a normal map leaves the normal sampler at unit 2, which holds nothing, while the map sits on unit 0 |
| Materials.TexturelessApplied | src/Engine/Material.cpp:8-56 | a material with no texture leaves its factors in the uniforms, the opaque flag 1 iff it is opaque, every presence flag 0, and every texture unit as it was |
| Materials.DefaultMaterialApplied | src/Engine/Material.hpp:17-39 | a default material uploads base color (1,1,1,1), metallic 1, roughness 1, cutoff 0.5, opaque; binds no texture |
| SceneManagement.NewManager | src/Engine/SceneManager.cpp:11-12 | nothing registered, no active or pending scene, not transitioning |
| SceneManagement.AddScene | src/Engine/SceneManager.cpp:17-20 | the name now owns a new scene object that no pointer references; other names and both pointers are unchanged |
| SceneManagement.RemoveScene | src/Engine/SceneManager.cpp:22-29 | true iff the name was registered; the entry is gone; the active pointer is cleared iff it named that scene; the pending pointer is not touched |
| SceneManagement.SetActiveScene | src/Engine/SceneManager.cpp:31-43 | unknown name iff error "Scene not found: " + name; with an active scene it exits it and defers the switch; otherwise it activates, initialises and enters the scene at once |
| SceneManagement.UpdateScenes | src/Engine/SceneManager.cpp:46-56 | fault iff transitioning with no pending scene; a transition is completed first (init, enter); then the active scene, if any, is updated |
| SceneManagement.RenderScenes | src/Engine/SceneManager.cpp:58-60 | renders the active scene iff there is one |
| SceneManagement.CleanupScenes | src/Engine/SceneManager.cpp:62-69 | every registered scene is cleaned up exactly once, the registry is emptied and both pointers are nulled; the transition flag is kept |
| SceneManagement.DistinctCard | src/Engine/SceneManager.cpp:62-65 | a duplicate-free iteration order has as many entries as there are distinct names |
| SceneManagement.AddKeepsFresh | src/Engine/SceneManager.cpp:17-20 | adding a scene keeps every scene identity unique |
| SceneManagement.OthersKeepFresh | src/Engine/SceneManager.cpp:22-69 | remove, set-active, update and cleanup keep scene identities unique |
| SceneManagement.CoherentPreserved | src/Engine/SceneManager.cpp:17-56 | every operation but cleanup keeps "transitioning iff a scene is pending", and a successful update always ends it |
| SceneManagement.CleanupMidTransitionFaults | src/Engine/SceneManager.cpp:62-69 | as written, cleanup during a transition leaves the flag set with no pending scene, so the next update dereferences null |
| SceneManagement.CleanupIntended | src/Engine/SceneManager.cpp:62-69 | corrected cleanup makes the same calls and leaves a coherent, dangling-free manager |
| SceneManagement.CleanupIntendedThenUpdate | src/Engine/SceneManager.cpp:46-56 | after the corrected cleanup, update succeeds and calls nothing |
| SceneManagement.CallsReachLiveScenes | src/Engine/SceneManager.cpp:31-60 | with no dangling pointer, every lifecycle call lands on a registered scene |
| SceneManagement.SwitchThenUpdate | src/Engine/SceneManager.cpp:31-56 | switching scenes exits the old one at once; the next update initialises and enters the new one before updating it |
| GlfwInput.Initial | include/Input.hpp:31-46 | no key or button down, cursor at the origin, no scroll, no listeners |
| GlfwInput.Lookup | include/Input.hpp:64-83 | a key never written reads false; a written one reads its value |
| GlfwInput.EdgesExclusive | include/Input.hpp:64-83 | pressed and released are never both true; pressed iff down now and not before; released iff up now and down before |
| GlfwInput.Update | src/Engine/Input.cpp:23-29 | levels kept, every press and release edge cleared, cursor delta zero, scroll zero |
| GlfwInput.OnKey | src/Engine/Input.cpp:32-40 | the key is down iff the action is not GLFW_RELEASE; nothing else changes; every key listener is told (key, action) in registration order |
| GlfwInput.OnMouseButton | src/Engine/Input.cpp:42-45 | the button is down iff the action is not GLFW_RELEASE; nothing else changes; no listener is told |
| GlfwInput.OnCursor | src/Engine/Input.cpp:47-55 | only the cursor moves, so the delta is the new position minus the last frame's; every mouse listener is told (x, y) |
| GlfwInput.OnScroll | src/Engine/Input.cpp:57-66 | the scroll delta becomes the y offset, replacing any earlier one; every scroll listener is told both offsets |
| GlfwInput.RegisterKeyListener | include/Input.hpp:99-101 | the listener is appended; nothing else changes |
| GlfwInput.RegisterMouseListener | include/Input.hpp:102-104 | the listener is appended; nothing else changes |
| GlfwInput.RegisterScrollListener | include/Input.hpp:105-107 | the listener is appended; nothing else changes |
| GlfwInput.KeyListenersInRegistrationOrder | src/Engine/Input.cpp:37-39 | listeners registered one after another are told about a key event in that order |
| GlfwInput.LastKeyAction | src/Engine/Input.cpp:32-34 | some action iff some key event for that key occurred |
| GlfwInput.FrameKeyEdges | src/Engine/Input.cpp:23-40 | over a frame, a key is down iff its last event was not a release (or it was down and had no event); pressed iff down now and not at the frame start |
| GlfwInput.DeliverKeys | src/Engine/Input.cpp:32-34 | after a run of events a key is down iff its last key event's action is not GLFW_RELEASE, or it had none and was down |
| GlfwInput.ScrollOverwrites | src/Engine/Input.cpp:60 | two scroll events leave only the second one's y offset |
| SdlInput.NewInput | includes/Input.hpp:36-48 | every key and button up in both snapshots (the constructor's fills, src/Tools/Input.cpp:10-13), mouse position and delta (0, 0) from the member initialisers, no window callback |
| SdlInput.SetWindowCallback | src/Tools/Input.cpp:66-77 | window events are forwarded afterwards iff the new `std::function` is non-empty; nothing else changes |
| SdlInput.Handle | src/Tools/Input.cpp:32-71 | one event of the loop keeps the key and button arrays at their fixed sizes |
| SdlInput.Drained | src/Tools/Input.cpp:24-73 | the loop-free reference for a drained queue keeps the key and button arrays at their fixed sizes (what it holds is stated by `SdlInput.ProcessEvents` and the lemmas below) |
| SdlInput.ProcessEvents | src/Tools/Input.cpp:24-73 | the event loop ends in the drained state, and the window events reach the callback, in order, iff one is set |
| SdlInput.DrainedStep | src/Tools/Input.cpp:31-72 | handling one more event moves the drained state forward by exactly that event |
| SdlInput.IsKeyUp | src/Tools/Input.cpp:84-86 | a release edge: in range, up now and down before |
| SdlInput.IsKeyHeld | src/Tools/Input.cpp:88-90 | in range and down in both snapshots |
| SdlInput.KeyEdgesOverFrame | src/Tools/Input.cpp:27-90 | over a frame, an in-range key reads down iff its last event is a key-down, or it has none and was down at the start; released iff it was down at the start and its last event is a key-up; held iff it was down and its last event, if any, is a key-down; out-of-range keys never read as anything |
| SdlInput.ButtonEdgesOverFrame | src/Tools/Input.cpp:27-103 | over a frame, unlike keys, a button 1-5 reads down only on a press edge: iff it was up at the start and its last event is a press; up iff it was down and its last event is a release; held iff it was down and its last event, if any, is a press; at most one of the three holds; buttons past 5 never read as anything |
| SdlInput.OutOfRangeKeysIgnored | src/Tools/Input.cpp:35-43 | events for keycodes past 322 never affect an in-range key |
| SdlInput.QuietFrame | src/Tools/Input.cpp:27-29 | a frame with no events clears every edge, keeps every level and zeroes the delta |
| SdlInput.ButtonSlots | src/Tools/Input.cpp:47-51 | button b lives in slot b - 1: pressing b reads as a press of b and of no other button |
| SdlInput.MotionOverwrites | src/Tools/Input.cpp:59-62 | a later motion event replaces, rather than adds to, position and delta |
| DynamicMatrix.New | src/Tools/Math/Matrix.cpp:12-16 | invalid_argument iff a dimension is 0; otherwise a rows × cols grid |
| DynamicMatrix.FromRows | src/Tools/Math/Matrix.cpp:19-26 | rows from the outer size, cols from the first row (0 when empty), data kept verbatim, nothing rejected |
| DynamicMatrix.FromRowsChecked | src/Tools/Math/Matrix.cpp:19-26 | corrected constructor: accepted iff every row has the first row's length, then shaped |
| DynamicMatrix.RaggedRowsAccepted | src/Tools/Math/Matrix.cpp:19-26 | as written, [[1, 2], [3]] becomes a 2 × 2 matrix whose entry (1, 1) passes the bounds check but lies past its row |
| DynamicMatrix.RectangularRowsAgree | src/Tools/Math/Matrix.cpp:19-26 | on rectangular input both constructors agree |
| DynamicMatrix.Copy | src/Tools/Math/Matrix.cpp:29-46 | a copy has the source's dimensions and entries |
| DynamicMatrix.Move | src/Tools/Math/Matrix.cpp:32-35 | the new matrix is the source; the source is left 0 × 0 |
| DynamicMatrix.MoveAssign | src/Tools/Math/Matrix.cpp:49-60 | self-assignment changes nothing; otherwise the target becomes the source and the source 0 × 0 |
| DynamicMatrix.MovedFromArithmeticFails | src/Tools/Math/Matrix.cpp:81-142 | arithmetic on moved-from matrices fails with invalid_argument at the result's allocation, though the dimension checks pass |
| DynamicMatrix.At | src/Tools/Math/Matrix.cpp:63-78 | out_of_range iff the row or column is past the dimensions; otherwise the stored entry |
| DynamicMatrix.SetAt | src/Tools/Math/Matrix.cpp:63-70 | out_of_range iff out of bounds; otherwise exactly the one entry changes |
| DynamicMatrix.SetThenGet | src/Tools/Math/Matrix.cpp:63-78 | reading an entry just written gives the value written |
| DynamicMatrix.Add | src/Tools/Math/Matrix.cpp:81-94 | mismatched dimensions are invalid_argument; matching ones fail only when 0-sized; the result is the entrywise sum |
| DynamicMatrix.Sub | src/Tools/Math/Matrix.cpp:97-110 | as for addition, with the entrywise difference |
| DynamicMatrix.AddThenSub | src/Tools/Math/Matrix.cpp:81-110 | subtracting what was added gives the original matrix |
| DynamicMatrix.AddCommutes | src/Tools/Math/Matrix.cpp:81-94 | addition succeeds in one order iff in the other, with the same result |
| DynamicMatrix.Product | src/Tools/Math/Matrix.cpp:113-130 | invalid_argument iff cols of the first differ from rows of the second, or a result dimension is 0; the result is rows × other.cols |
| DynamicMatrix.Multiply | src/Tools/Math/Matrix.cpp:113-130 | the triple loop computes exactly the product: entry (i, j) is the sum over k of A(i, k)·B(k, j) |
| DynamicMatrix.ProductIdentity | src/Tools/Math/Matrix.cpp:113-130 | the identity matrix is neutral on both sides |
| DynamicMatrix.Scale | src/Tools/Math/Matrix.cpp:133-142 | fails only for a 0-sized matrix; same shape, each entry times the scalar |
| DynamicMatrix.ScaleLeft | src/Tools/Math/Matrix.cpp:157 | scalar·matrix fails exactly when matrix·scalar does, with each entry scaled |
| DynamicMatrix.ScaleLaws | src/Tools/Math/Matrix.cpp:133-142 | scaling by 1 is the identity; scaling by s then t is scaling by s·t |
| DynamicMatrix.Transposed | src/Tools/Math/Matrix.cpp:145-154 | the cols × rows matrix with entry (i, j) = original (j, i) |
| DynamicMatrix.TransposedTwice | src/Tools/Math/Matrix.cpp:145-154 | transposing twice gives the matrix back |
| DynamicMatrix.Transpose | src/Tools/Math/Matrix.cpp:145-154 | as written, with the result allocated as a zero-filled rows × cols grid, succeeds iff the matrix is square and non-empty; then gives the transpose; otherwise out_of_range (invalid_argument when 0-sized) |
| DynamicMatrix.TransposeIntended | src/Tools/Math/Matrix.cpp:145-154 | corrected: fails only for a 0-sized matrix, and gives the transpose |
| DynamicMatrix.TransposeIntendedInvolution | src/Tools/Math/Matrix.cpp:145-154 | corrected transpose applied twice gives any non-empty matrix back |
| DynamicMatrix.NonSquareTranspose | src/Tools/Math/Matrix.cpp:145-154 | the 1 × 2 row [1, 2], which the as-written transpose rejects, transposes to the 2 × 1 column when corrected |

## Left out

- Parsing of glTF files (the tinygltf parser), image decoding (stb_image) and `fs::path` are foreign code. The model starts from a parsed document, takes the parser's outcome and the decoder's result as parameters, and does not compute `directory_`.
- OpenGL objects are opaque names. `glGenTextures` is not modelled, and the filtering and wrapping parameters of `setup_texture` are constants with no observable effect here.
- Listener and callback bodies are foreign code. A GLFW listener call is a notice; an SDL window-event forward is the forwarded event.
- GlfwInput.RegisterKeyListener, GlfwInput.RegisterMouseListener, GlfwInput.RegisterScrollListener: a listener is always a non-empty function. Registering an empty `std::function` makes the next key, cursor or scroll event throw `std::bad_function_call` when it is invoked (src/Engine/Input.cpp:37-39, 52-54, 63-65); that throw is not modelled.
- Single-precision floats: vertex components are four uninterpreted bytes, the scroll offset's `float` cast is not modelled, the GLFW cursor keeps the `double` coordinates exactly where the source rounds them into a `glm::vec2` of floats (src/Engine/Input.cpp:49), and matrix entries are reals without rounding.
- Glm vector arithmetic is exact.
- `include/Model.hpp`, `include/Texture.hpp` and `src/Tools/Input.hpp` are older than the sources and are not followed; the vertex tangent and bone fields they mention are not modelled. The SDL input class follows `includes/Input.hpp`, the declaration that matches src/Tools/Input.cpp: 322 keys, five mouse buttons, and the mouse vectors initialised to (0, 0).
- Destructors and the singletons' lifetimes are not modelled.
- The SDL input constructor turns SDL relative mouse mode on and its destructor turns it off (src/Tools/Input.cpp:16, 20). That is foreign state and is not modelled.
- Bytes.LittleEndian: the source reads u16 and u32 indices through pointer casts (src/Engine/Model.cpp:120-145), so it reads in host byte order and possibly unaligned. The model assumes a little-endian host on which such reads behave, as glTF 2.0 stores little-endian data.
- DynamicMatrix.FromRows: rows is the outer size and cols the first row's size only if `rows_` and `cols_` are declared before `data_`. The header that fixes the member order is not part of this model. With `data_` declared first, the initialisers would read the moved-from vector and record 0 × 0.
- The default-constructed GLFW cursor vectors are taken as zero.
- Out-of-contract arguments are preconditions:
  - negative SDL keycodes and SDL button 0 (`SdlInput.InContract`);
  - unchecked glTF table indices and buffer reads (`GltfMesh.PrimitiveReadable`, `GltfScene.Ranked`); `GltfScene.Ranked` constrains every node of the document, including nodes the chosen scene never reaches, so a file whose unreachable nodes hold bad indices is outside the model;
  - ragged matrices for the arithmetic (`DynamicMatrix.Shaped`);
  - an acyclic node hierarchy, which glTF 2.0 requires (section 3.5.2) and which the walk needs to terminate.
- GlfwInput.Lookup: `operator[]` inserts `false` for a key it has not seen. That insertion changes no answer and is not modelled.
- GltfMesh.MaterialTextures: its own contract covers only the no-material case; its full behaviour is stated by `GltfMesh.MaterialTexturesInSlotOrder`.
- GltfMesh.ProcessMesh: the texture-coordinate null check is dead code (a pointer into a vector is never null), so no default coordinate is modelled.
- SceneManagement.AddScene: the scene is always a new object; `add_scene(name, nullptr)` (src/Engine/SceneManager.cpp:19), which registers a null scene that a later activation would dereference, is not expressible.
- SceneManagement.CleanupScenes: the iteration order of the registry is a parameter, any permutation of the registered names.
- DynamicMatrix.New: `Matrix(rows, cols)` in src/Tools/Math/Matrix.cpp:12-16 does not size `data_` itself, and the class declaration, where a member initialiser could size it, is not part of this model. The model assumes a zero-filled rows × cols grid. If `data_` were left empty, the first entry write of every arithmetic operator and of `transpose` would index the empty vector, whatever the shapes.

## Findings

| source | as written | input that shows it | evidently intended | confidence | as-written member | corrected member |
|---|---|---|---|---|---|---|
| src/Engine/Material.cpp:27-55 | each binding activates unit k, then `Texture::bind()` re-activates unit 0 (src/Engine/Texture.cpp:81-84), so every texture is bound on unit 0 while the samplers name units 1-4 | a material whose only texture is a normal map: the sampler says unit 2, unit 2 holds nothing, the map is on unit 0 | each texture bound on its own unit | high; not executed | Materials.NormalMapSampledFromEmptyUnit | Materials.ApplyIntendedBindsEachOnItsUnit |
| src/Engine/SceneManager.cpp:62-69 | `cleanup` nulls `next_scene_` but leaves `transitioning_` set | set an active scene, switch to another, call `cleanup`, then `update`: it dereferences the null pending scene | cleanup also ends the transition | high; not executed | SceneManagement.CleanupMidTransitionFaults | SceneManagement.CleanupIntendedThenUpdate |
| src/Tools/Math/Matrix.cpp:145-154 | the result is allocated rows × cols and written at (j, i), so any non-square matrix throws out_of_range | the 1 × 2 matrix [[1, 2]] | a cols × rows result, so every matrix has a transpose | medium: holds when `Matrix(rows, cols)` sizes `data_` as rows × cols, which the class declaration would have to do (see DynamicMatrix.New under Left out); not executed | DynamicMatrix.Transpose | DynamicMatrix.TransposeIntendedInvolution |
| src/Tools/Math/Matrix.cpp:19-26 | the rectangularity loop walks the argument after it was moved from, so it checks nothing | [[1, 2], [3]] is accepted as 2 × 2, and entry (1, 1) passes the bounds check but is past its row | ragged input rejected with invalid_argument | medium (a moved-from vector is empty in practice, not by guarantee); not executed | DynamicMatrix.RaggedRowsAccepted | DynamicMatrix.FromRowsChecked |
| src/Engine/Model.cpp:164-166 | the base-color texture is requested as "albedo", a kind `load_material_textures` does not know (line 206), so it is never loaded | any material with a base-color texture: the mesh gets no diffuse texture | request "baseColor", giving the base-color texture first as "texture_diffuse" | high; not executed | GltfMesh.AlbedoNeverLoads | GltfMesh.BaseColorLoadsFirst |
