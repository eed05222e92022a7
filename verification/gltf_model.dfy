/** `Model::load_model` (src/Engine/Model.cpp): choosing the binary or the
    text parser from the file name, rejecting a parse that reported a
    warning, an error or failure, and turning every primitive of the chosen
    scene into a mesh in walk order. The parsers themselves are not
    modelled: their outcomes are parameters. */
module GltfModel {
  import opened Results
  import opened GltfDocument
  import opened GltfScene
  import opened GltfMesh

  // ---- Extension dispatch ----

  /** `std::string::npos`, the "not found" result of a 64-bit `size_t`
      search. */
  const NPOS: nat := 0xFFFF_FFFF_FFFF_FFFF
  const SIZE_LIMIT: nat := 0x1_0000_0000_0000_0000

  /** `find_last_of('.')`: the position of the last '.', or `NPOS`. */
  function FindLastDot(path: string): (r: nat)
    requires |path| < NPOS
    ensures r == NPOS <==> forall i :: 0 <= i < |path| ==> path[i] != '.'
    ensures r != NPOS ==> r < |path| && path[r] == '.' && forall i :: r < i < |path| ==> path[i] != '.'
    decreases |path|
  {
    if |path| == 0 then NPOS
    else if path[|path| - 1] == '.' then |path| - 1
    else
      var r := FindLastDot(path[..|path| - 1]);
      assert forall i :: 0 <= i < |path| - 1 ==> path[..|path| - 1][i] == path[i];
      r
  }

  /** What `load_model` compares with "glb": the text after the last '.',
      or, since `npos + 1` wraps to 0 in `size_t`, the whole path when
      there is no '.'. Paths are shorter than `NPOS`. */
  function Extension(path: string): string
    requires |path| < NPOS
  {
    var start := (FindLastDot(path) + 1) % SIZE_LIMIT;
    path[start..]
  }

  datatype Loader = Binary | Ascii

  /** The parser `load_model` calls for `path`. */
  function ChooseLoader(path: string): Loader
    requires |path| < NPOS
  {
    if Extension(path) == "glb" then Binary else Ascii
  }

  /** The binary parser is chosen iff the path ends in ".glb" or is
      exactly "glb". */
  lemma BinaryIffGlbSuffix(path: string)
    requires |path| < NPOS
    ensures ChooseLoader(path) == Binary <==>
      path == "glb" || (|path| >= 4 && path[|path| - 4..] == ".glb")
  {
    if path == "glb" {
      BareGlbIsBinary(path);
    } else if |path| >= 4 && path[|path| - 4..] == ".glb" {
      GlbSuffixIsBinary(path);
    } else if ChooseLoader(path) == Binary {
      BinaryHasGlbSuffix(path);
    }
  }

  lemma BareGlbIsBinary(path: string)
    requires path == "glb"
    ensures ChooseLoader(path) == Binary
  {
    assert forall i :: 0 <= i < |path| ==> path[i] != '.';
    assert FindLastDot(path) == NPOS;
  }

  lemma GlbSuffixIsBinary(path: string)
    requires |path| < NPOS && |path| >= 4 && path[|path| - 4..] == ".glb"
    ensures ChooseLoader(path) == Binary
  {
    var n := |path|;
    assert path[n - 4] == '.' && path[n - 3] == 'g' && path[n - 2] == 'l' && path[n - 1] == 'b';
    assert FindLastDot(path) == n - 4;
    assert Extension(path) == path[n - 3..];
  }

  lemma BinaryHasGlbSuffix(path: string)
    requires |path| < NPOS && ChooseLoader(path) == Binary
    ensures path == "glb" || (|path| >= 4 && path[|path| - 4..] == ".glb")
  {
    var d := FindLastDot(path);
    if d == NPOS {
      assert (d + 1) % SIZE_LIMIT == 0;
      assert Extension(path) == path;
    } else {
      assert d < |path| && path[d] == '.';
      assert (d + 1) % SIZE_LIMIT == d + 1;
      var ext := path[d + 1..];
      assert ext == Extension(path) == "glb";
      assert |path| == d + 4;
      assert path[|path| - 4..] == [path[d]] + ext;
    }
  }

  // ---- Loading ----

  /** What a parser call reported: its return value, its error and warning
      texts, and the document it filled. */
  datatype ParseOutcome = ParseOutcome(ok: bool, err: string, warn: string, doc: Document)

  datatype LoadError =
    | ParserWarning(text: string)
    | ParserError(text: string)
    | ParseFailed(message: string)
    | MeshFailed(cause: MeshError)

  /** The primitives, in order, turned into meshes; the first failure
      aborts. */
  function ProcessAll(doc: Document, prims: seq<Primitive>): (r: Result<seq<MeshData>, MeshError>)
    requires forall i :: 0 <= i < |prims| ==> PrimitiveReadable(doc, prims[i])
    ensures r.Ok? <==> forall i :: 0 <= i < |prims| ==> ProcessMesh(doc, prims[i]).Ok?
    ensures r.Ok? ==> (|r.value| == |prims| &&
      forall i :: 0 <= i < |prims| ==> r.value[i] == ProcessMesh(doc, prims[i]).value)
    ensures r.Err? ==>
      exists i :: (0 <= i < |prims| && ProcessMesh(doc, prims[i]).Err?
                   && r.error == ProcessMesh(doc, prims[i]).error
                   && forall j :: 0 <= j < i ==> ProcessMesh(doc, prims[j]).Ok?)
  {
    if |prims| == 0 then Ok([])
    else
      var first :- ProcessMesh(doc, prims[0]);
      assert forall i :: 1 <= i < |prims| ==> prims[1..][i - 1] == prims[i];
      var rest :- ProcessAll(doc, prims[1..]);
      Ok([first] + rest)
  }

  /** Everything the walk and the mesh extraction dereference exists. */
  ghost predicate Loadable(doc: Document, rank: seq<nat>) {
    && SceneWalkable(doc, rank)
    && var prims := ScenePrimitives(doc, rank);
    forall i :: 0 <= i < |prims| ==> PrimitiveReadable(doc, prims[i])
  }

  /** The outcome of the parser `load_model` picks for `path`. */
  function Chosen(path: string, binary: ParseOutcome, ascii: ParseOutcome): ParseOutcome
    requires |path| < NPOS
  {
    if ChooseLoader(path) == Binary then binary else ascii
  }

  /** The meshes a model holds after a walk, and the mesh error that
      ended the walk early, if any. */
  datatype Pushed = Pushed(meshes: seq<MeshData>, failure: Option<MeshError>)

  /** The outcome of `process_mesh` for each primitive, in walk order. */
  function Outcomes(doc: Document, prims: seq<Primitive>): (outs: seq<Result<MeshData, MeshError>>)
    requires forall i :: 0 <= i < |prims| ==> PrimitiveReadable(doc, prims[i])
    ensures |outs| == |prims| && forall i :: 0 <= i < |prims| ==> outs[i] == ProcessMesh(doc, prims[i])
  {
    seq(|prims|, i requires 0 <= i < |prims| => ProcessMesh(doc, prims[i]))
  }

  /** The `meshes_.push_back(process_mesh(...))` of the walk, given each
      primitive's outcome: a mesh is appended as soon as it is built, and
      the first failure stops the walk, leaving the meshes of the
      primitives before it in place. */
  function PushMeshes(meshes: seq<MeshData>, outs: seq<Result<MeshData, MeshError>>): (r: Pushed)
    ensures |meshes| <= |r.meshes| && r.meshes[..|meshes|] == meshes
    ensures r.failure.None? <==> forall i :: 0 <= i < |outs| ==> outs[i].Ok?
    ensures r.failure.None? ==>
      |r.meshes| == |meshes| + |outs| && forall i :: 0 <= i < |outs| ==> r.meshes[|meshes| + i] == outs[i].value
    ensures r.failure.Some? ==>
      var k := |r.meshes| - |meshes|;
      && k < |outs| && outs[k].Err? && r.failure.value == outs[k].error
      && forall j :: 0 <= j < k ==> outs[j].Ok? && r.meshes[|meshes| + j] == outs[j].value
    decreases |outs|
  {
    if |outs| == 0 then Pushed(meshes, None)
    else if outs[0].Err? then Pushed(meshes, Some(outs[0].error))
    else
      var grown := meshes + [outs[0].value];
      var r := PushMeshes(grown, outs[1..]);
      assert r.meshes[..|meshes|] == r.meshes[..|grown|][..|meshes|];
      assert r.meshes[|meshes|] == grown[|meshes|];
      assert forall i :: 1 <= i < |outs| ==> outs[1..][i - 1] == outs[i];
      r
  }

  /** With every primitive converted, pushing appends exactly the meshes
      `ProcessAll` returns. */
  lemma PushAllConverted(doc: Document, meshes: seq<MeshData>, prims: seq<Primitive>)
    requires forall i :: 0 <= i < |prims| ==> PrimitiveReadable(doc, prims[i])
    ensures ProcessAll(doc, prims).Ok? ==>
      PushMeshes(meshes, Outcomes(doc, prims)) == Pushed(meshes + ProcessAll(doc, prims).value, None)
  {
    if ProcessAll(doc, prims).Ok? {
      var r := PushMeshes(meshes, Outcomes(doc, prims));
      var all := ProcessAll(doc, prims).value;
      assert r.meshes == meshes + all;
    }
  }

  /** With a primitive failing, pushing reports the error `ProcessAll`
      reports: that of the first failing primitive. */
  lemma PushStopsAtFailure(doc: Document, meshes: seq<MeshData>, prims: seq<Primitive>)
    requires forall i :: 0 <= i < |prims| ==> PrimitiveReadable(doc, prims[i])
    ensures ProcessAll(doc, prims).Err? ==>
      PushMeshes(meshes, Outcomes(doc, prims)).failure == Some(ProcessAll(doc, prims).error)
  {
    var outs := Outcomes(doc, prims);
    var r := PushMeshes(meshes, outs);
    var k := |r.meshes| - |meshes|;
    var all := ProcessAll(doc, prims);
    if all.Err? {
      var i :| 0 <= i < |prims| && ProcessMesh(doc, prims[i]).Err?
                && all.error == ProcessMesh(doc, prims[i]).error
                && forall j :: 0 <= j < i ==> ProcessMesh(doc, prims[j]).Ok?;
      assert outs[i].Err? && outs[k].Err?;
      assert !(i < k) && !(k < i);
    }
  }

  /** What a model holds after `load_model`, and the exception it threw,
      if any. */
  datatype Loaded = Loaded(meshes: seq<MeshData>, error: Option<LoadError>)

  /** The walk of `load_model` on a model already holding `prior`
      meshes: the primitives' meshes are appended in walk order up to the
      first primitive that fails, whose error is then thrown; the meshes
      appended before it stay. */
  function LoadScene(prior: seq<MeshData>, doc: Document, prims: seq<Primitive>): (r: Loaded)
    requires forall i :: 0 <= i < |prims| ==> PrimitiveReadable(doc, prims[i])
    ensures |prior| <= |r.meshes| && r.meshes[..|prior|] == prior
    ensures var all := ProcessAll(doc, prims);
      && (r.error.None? <==> all.Ok?)
      && (all.Ok? ==> r.meshes == prior + all.value)
      && (all.Err? ==> r.error == Some(MeshFailed(all.error)))
  {
    var pushed := PushMeshes(prior, Outcomes(doc, prims));
    PushAllConverted(doc, prior, prims);
    PushStopsAtFailure(doc, prior, prims);
    Loaded(pushed.meshes, if pushed.failure.Some? then Some(MeshFailed(pushed.failure.value)) else None)
  }

  /** A walk that throws keeps the meshes it built before the failing
      primitive: primitive `k`, the first to fail, is where it stopped,
      and the meshes of primitives `0..k-1` follow `prior`, in order. */
  lemma FailedLoadKeepsBuiltMeshes(prior: seq<MeshData>, doc: Document, prims: seq<Primitive>)
    requires forall i :: 0 <= i < |prims| ==> PrimitiveReadable(doc, prims[i])
    ensures var r := LoadScene(prior, doc, prims);
      var outs := Outcomes(doc, prims);
      var k := |r.meshes| - |prior|;
      r.error.Some? ==>
        && k < |outs| && outs[k].Err?
        && forall j :: 0 <= j < k ==> outs[j].Ok? && r.meshes[|prior| + j] == outs[j].value
  {
    var outs := Outcomes(doc, prims);
    var pushed := PushMeshes(prior, outs);
    var r := LoadScene(prior, doc, prims);
    assert r.meshes == pushed.meshes && (r.error.Some? <==> pushed.failure.Some?);
  }

  /** `load_model` on a model already holding `prior` meshes: `binary` and
      `ascii` are what the two parsers would report for `path`. A
      non-empty warning aborts the load before an error text is looked
      at, and that before the return value; all three leave the meshes as
      they were. Otherwise the chosen scene's walk appends its meshes to
      `prior` as `LoadScene` states. */
  function LoadModel(prior: seq<MeshData>, path: string, binary: ParseOutcome, ascii: ParseOutcome, ghost rank: seq<nat>)
    : (r: Loaded)
    requires |path| < NPOS
    requires var o := Chosen(path, binary, ascii);
      o.warn == [] && o.err == [] && o.ok ==> Loadable(o.doc, rank)
    ensures var o := Chosen(path, binary, ascii);
      && (o.warn != [] ==> r == Loaded(prior, Some(ParserWarning(o.warn))))
      && (o.warn == [] && o.err != [] ==> r == Loaded(prior, Some(ParserError(o.err))))
      && (o.warn == [] && o.err == [] && !o.ok ==>
            r == Loaded(prior, Some(ParseFailed("Failed to load glTF model: " + path))))
    ensures var o := Chosen(path, binary, ascii);
      o.warn == [] && o.err == [] && o.ok ==> r == LoadScene(prior, o.doc, ScenePrimitives(o.doc, rank))
  {
    var o := Chosen(path, binary, ascii);
    if o.warn != [] then Loaded(prior, Some(ParserWarning(o.warn)))
    else if o.err != [] then Loaded(prior, Some(ParserError(o.err)))
    else if !o.ok then Loaded(prior, Some(ParseFailed("Failed to load glTF model: " + path)))
    else LoadScene(prior, o.doc, ScenePrimitives(o.doc, rank))
  }

  /** Loading a second file into the same model keeps the first file's
      meshes and appends the second's after them. */
  lemma LoadingTwiceAccumulates(path1: string, b1: ParseOutcome, a1: ParseOutcome, rank1: seq<nat>,
                                path2: string, b2: ParseOutcome, a2: ParseOutcome, rank2: seq<nat>)
    requires |path1| < NPOS && |path2| < NPOS
    requires var o := Chosen(path1, b1, a1); o.warn == [] && o.err == [] && o.ok && Loadable(o.doc, rank1)
    requires var o := Chosen(path2, b2, a2); o.warn == [] && o.err == [] && o.ok && Loadable(o.doc, rank2)
    requires ProcessAll(Chosen(path1, b1, a1).doc, ScenePrimitives(Chosen(path1, b1, a1).doc, rank1)).Ok?
    requires ProcessAll(Chosen(path2, b2, a2).doc, ScenePrimitives(Chosen(path2, b2, a2).doc, rank2)).Ok?
    ensures var first := LoadModel([], path1, b1, a1, rank1);
      var second := LoadModel(first.meshes, path2, b2, a2, rank2);
      && second.error.None?
      && second.meshes
         == ProcessAll(Chosen(path1, b1, a1).doc, ScenePrimitives(Chosen(path1, b1, a1).doc, rank1)).value
          + ProcessAll(Chosen(path2, b2, a2).doc, ScenePrimitives(Chosen(path2, b2, a2).doc, rank2)).value
  {
    var first := LoadModel([], path1, b1, a1, rank1);
    assert [] + ProcessAll(Chosen(path1, b1, a1).doc, ScenePrimitives(Chosen(path1, b1, a1).doc, rank1)).value
        == ProcessAll(Chosen(path1, b1, a1).doc, ScenePrimitives(Chosen(path1, b1, a1).doc, rank1)).value;
  }
}
