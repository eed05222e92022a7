/** The engine's PBR material (src/Engine/Material.hpp) and
    `Material::apply` (src/Engine/Material.cpp), which uploads it to a
    shader. `apply` is modelled as the sequence of OpenGL calls it makes;
    an interpreter of that sequence gives the shader state the calls
    leave behind. */
module Materials {
  import opened Results

  datatype Vec3 = Vec3(x: real, y: real, z: real)
  datatype Vec4 = Vec4(x: real, y: real, z: real, w: real)

  /** OpenGL texture object name of a loaded texture. */
  type TextureName = nat

  datatype AlphaMode = Opaque | Mask | Blend

  datatype Material = Material(
    baseColor: Vec4,
    metallic: real,
    roughness: real,
    baseColorTexture: Option<TextureName>,
    metallicRoughnessTexture: Option<TextureName>,
    normalTexture: Option<TextureName>,
    occlusionTexture: Option<TextureName>,
    emissiveTexture: Option<TextureName>,
    emissiveFactor: Vec3,
    doubleSided: bool,
    alphaMode: AlphaMode,
    alphaCutoff: real)

  /** A default-constructed material. */
  function DefaultMaterial(): Material {
    Material(Vec4(1.0, 1.0, 1.0, 1.0), 1.0, 1.0, None, None, None, None, None,
             Vec3(0.0, 0.0, 0.0), false, Opaque, 0.5)
  }

  // ---- Texture slots ----

  datatype Slot = BaseColor | MetallicRoughness | Normal | Occlusion | Emissive

  /** The slots in the order `apply` treats them. */
  const Slots: seq<Slot> := [BaseColor, MetallicRoughness, Normal, Occlusion, Emissive]

  function Handle(m: Material, s: Slot): Option<TextureName> {
    match s
    case BaseColor => m.baseColorTexture
    case MetallicRoughness => m.metallicRoughnessTexture
    case Normal => m.normalTexture
    case Occlusion => m.occlusionTexture
    case Emissive => m.emissiveTexture
  }

  /** The texture unit `apply` reserves for a slot. */
  function Unit(s: Slot): nat {
    match s
    case BaseColor => 0
    case MetallicRoughness => 1
    case Normal => 2
    case Occlusion => 3
    case Emissive => 4
  }

  /** The uniform flagging whether a slot holds a texture. */
  function FlagUniform(s: Slot): string {
    match s
    case BaseColor => "material.hasBaseColorTexture"
    case MetallicRoughness => "material.hasMetallicRoughnessTexture"
    case Normal => "material.hasNormalTexture"
    case Occlusion => "material.hasOcclusionTexture"
    case Emissive => "material.hasEmissiveTexture"
  }

  /** The sampler uniform of a slot. */
  function SamplerUniform(s: Slot): string {
    match s
    case BaseColor => "material.baseColorTexture"
    case MetallicRoughness => "material.metallicRoughnessTexture"
    case Normal => "material.normalTexture"
    case Occlusion => "material.occlusionTexture"
    case Emissive => "material.emissiveTexture"
  }

  // ---- OpenGL calls and their effect ----

  datatype UniformValue = IntValue(i: int) | FloatValue(f: real) | Vec3Value(v3: Vec3) | Vec4Value(v4: Vec4)

  /** The calls `apply` makes: shader uniform setters, `glActiveTexture`
      with a unit number, `glBindTexture(GL_TEXTURE_2D, name)`. */
  datatype GlCall =
    | SetUniform(name: string, value: UniformValue)
    | ActiveTexture(unit: nat)
    | BindTexture(texture: TextureName)

  /** The part of the OpenGL state the calls change: uniform values, the
      active texture unit and the 2D texture bound on each unit. */
  datatype GlState = GlState(uniforms: map<string, UniformValue>, activeUnit: nat, bound: map<nat, TextureName>)

  function Execute(st: GlState, c: GlCall): GlState {
    match c
    case SetUniform(name, v) => st.(uniforms := st.uniforms[name := v])
    case ActiveTexture(u) => st.(activeUnit := u)
    case BindTexture(t) => st.(bound := st.bound[st.activeUnit := t])
  }

  function Run(st: GlState, calls: seq<GlCall>): GlState
    decreases |calls|
  {
    if |calls| == 0 then st else Run(Execute(st, calls[0]), calls[1..])
  }

  lemma {:induction false} RunAppend(st: GlState, a: seq<GlCall>, b: seq<GlCall>)
    ensures Run(st, a + b) == Run(Run(st, a), b)
    decreases |a|
  {
    if |a| > 0 {
      assert (a + b)[1..] == a[1..] + b;
      RunAppend(Execute(st, a[0]), a[1..], b);
    } else {
      assert a + b == b;
    }
  }

  // ---- apply ----

  function Flag(b: bool): UniformValue {
    IntValue(if b then 1 else 0)
  }

  /** The scalar factors, copied verbatim, and the three alpha-mode
      flags, of which exactly the one naming the material's mode is 1, all
      written to the uniforms of `ScalarNames` in that order. */
  function ScalarCalls(m: Material): (calls: seq<GlCall>)
    ensures |calls| == |ScalarNames()|
    ensures forall k :: 0 <= k < |calls| ==> calls[k].SetUniform? && calls[k].name == ScalarNames()[k]
    ensures calls[0].value == Vec4Value(m.baseColor) && calls[1].value == FloatValue(m.metallic)
    ensures calls[2].value == FloatValue(m.roughness) && calls[3].value == Vec3Value(m.emissiveFactor)
    ensures calls[4].value == FloatValue(m.alphaCutoff)
    ensures multiset{calls[5].value, calls[6].value, calls[7].value} == multiset{IntValue(1), IntValue(0), IntValue(0)}
    ensures (calls[5].value == IntValue(1) <==> m.alphaMode == Opaque)
    ensures (calls[6].value == IntValue(1) <==> m.alphaMode == Blend)
    ensures (calls[7].value == IntValue(1) <==> m.alphaMode == Mask)
  {
    var n := ScalarNames();
    [ SetUniform(n[0], Vec4Value(m.baseColor)),
      SetUniform(n[1], FloatValue(m.metallic)),
      SetUniform(n[2], FloatValue(m.roughness)),
      SetUniform(n[3], Vec3Value(m.emissiveFactor)),
      SetUniform(n[4], FloatValue(m.alphaCutoff)),
      SetUniform(n[5], Flag(m.alphaMode == Opaque)),
      SetUniform(n[6], Flag(m.alphaMode == Blend)),
      SetUniform(n[7], Flag(m.alphaMode == Mask)) ]
  }

  /** One presence flag per slot, in slot order. */
  function FlagCalls(m: Material, slots: seq<Slot>): (calls: seq<GlCall>)
    ensures |calls| == |slots|
    ensures forall i :: 0 <= i < |slots| ==>
      calls[i] == SetUniform(FlagUniform(slots[i]), Flag(Handle(m, slots[i]).Some?))
  {
    if |slots| == 0 then []
    else [SetUniform(FlagUniform(slots[0]), Flag(Handle(m, slots[0]).Some?))] + FlagCalls(m, slots[1..])
  }

  /** `glActiveTexture(GL_TEXTUREk)` then `Texture::bind()`, which itself
      activates unit 0 before binding, then the sampler uniform. */
  function BindCalls(s: Slot, t: TextureName): seq<GlCall> {
    [ActiveTexture(Unit(s)), ActiveTexture(0), BindTexture(t), SetUniform(SamplerUniform(s), IntValue(Unit(s)))]
  }

  /** The binding calls of the slots holding a texture, in slot order. */
  function BindAll(m: Material, slots: seq<Slot>, bind: (Slot, TextureName) -> seq<GlCall>): seq<GlCall> {
    if |slots| == 0 then []
    else
      (match Handle(m, slots[0])
       case Some(t) => bind(slots[0], t)
       case None => [])
      + BindAll(m, slots[1..], bind)
  }

  /** `Material::apply`: scalars and alpha flags, presence flags, then one
      binding per present texture. */
  function Apply(m: Material): (calls: seq<GlCall>)
    ensures |calls| >= 13
    ensures forall i :: 0 <= i < 13 ==> calls[i].SetUniform?
  {
    ScalarCalls(m) + FlagCalls(m, Slots) + BindAll(m, Slots, BindCalls)
  }

  /** `apply` as evidently intended: each present texture bound on its
      own unit, without the switch back to unit 0. */
  function IntendedBindCalls(s: Slot, t: TextureName): seq<GlCall> {
    [ActiveTexture(Unit(s)), BindTexture(t), SetUniform(SamplerUniform(s), IntValue(Unit(s)))]
  }

  /** The binding part of `apply`, as written or as intended. */
  function Binds(m: Material, slots: seq<Slot>, intended: bool): seq<GlCall> {
    BindAll(m, slots, if intended then IntendedBindCalls else BindCalls)
  }

  function ApplyIntended(m: Material): seq<GlCall> {
    ScalarCalls(m) + FlagCalls(m, Slots) + BindAll(m, Slots, IntendedBindCalls)
  }

  // ---- What the calls leave behind ----

  function SlotIndex(s: Slot): (k: nat)
    ensures k < |Slots| && Slots[k] == s
  {
    match s
    case BaseColor => 0
    case MetallicRoughness => 1
    case Normal => 2
    case Occlusion => 3
    case Emissive => 4
  }

  predicate Writes(c: GlCall, name: string) {
    c.SetUniform? && c.name == name
  }

  /** If every write of `name` in `calls` writes `v`, the uniform ends up
      `v` when there is such a write and keeps its old value otherwise. */
  lemma {:induction false} ConsistentWrites(st: GlState, calls: seq<GlCall>, name: string, v: UniformValue)
    requires forall j :: 0 <= j < |calls| && Writes(calls[j], name) ==> calls[j].value == v
    ensures (exists j :: 0 <= j < |calls| && Writes(calls[j], name)) ==>
      name in Run(st, calls).uniforms && Run(st, calls).uniforms[name] == v
    ensures (forall j :: 0 <= j < |calls| ==> !Writes(calls[j], name)) ==>
      (name in Run(st, calls).uniforms <==> name in st.uniforms) &&
      (name in st.uniforms ==> Run(st, calls).uniforms[name] == st.uniforms[name])
    decreases |calls|
  {
    if |calls| > 0 {
      var rest := calls[1..];
      assert forall j :: 0 <= j < |rest| ==> rest[j] == calls[j + 1];
      ConsistentWrites(Execute(st, calls[0]), rest, name, v);
      if exists j :: 0 <= j < |calls| && Writes(calls[j], name) {
        if !Writes(calls[0], name) {
          var j :| 0 <= j < |calls| && Writes(calls[j], name);
          assert Writes(rest[j - 1], name);
        }
      }
    }
  }

  /** Uniform writes alone leave texture state alone. */
  lemma {:induction false} UniformsOnly(st: GlState, calls: seq<GlCall>)
    requires forall j :: 0 <= j < |calls| ==> calls[j].SetUniform?
    ensures Run(st, calls).activeUnit == st.activeUnit && Run(st, calls).bound == st.bound
    decreases |calls|
  {
    if |calls| > 0 {
      assert forall j :: 0 <= j < |calls| - 1 ==> calls[1..][j] == calls[j + 1];
      UniformsOnly(Execute(st, calls[0]), calls[1..]);
    }
  }

  /** The only uniforms a binding sequence writes are the samplers of
      present slots, each with its slot's unit. */
  lemma {:induction false} BindAllWrites(m: Material, slots: seq<Slot>, intended: bool, name: string)
    ensures var calls := Binds(m, slots, intended);
      && (forall j :: 0 <= j < |calls| && Writes(calls[j], name) ==>
            exists s :: s in slots && Handle(m, s).Some? && name == SamplerUniform(s) && calls[j].value == IntValue(Unit(s)))
      && (forall s :: s in slots && Handle(m, s).Some? && name == SamplerUniform(s) ==>
            exists j :: 0 <= j < |calls| && Writes(calls[j], name))
    decreases |slots|
  {
    var bind := if intended then IntendedBindCalls else BindCalls;
    if |slots| > 0 {
      BindAllWrites(m, slots[1..], intended, name);
      var head := match Handle(m, slots[0]) case Some(t) => bind(slots[0], t) case None => [];
      var tail := Binds(m, slots[1..], intended);
      var calls := Binds(m, slots, intended);
      assert calls == head + tail;
      forall j | 0 <= j < |calls| && Writes(calls[j], name)
        ensures exists s :: s in slots && Handle(m, s).Some? && name == SamplerUniform(s) && calls[j].value == IntValue(Unit(s))
      {
        if j >= |head| {
          assert calls[j] == tail[j - |head|];
        } else {
          assert calls[j] == head[j];
          var t := Handle(m, slots[0]).value;
          assert slots[0] in slots;
          if intended {
            assert head == IntendedBindCalls(slots[0], t);
          } else {
            assert head == BindCalls(slots[0], t);
          }
        }
      }
      forall s | s in slots && Handle(m, s).Some? && name == SamplerUniform(s)
        ensures exists j :: 0 <= j < |calls| && Writes(calls[j], name)
      {
        if s == slots[0] {
          assert Writes(calls[|head| - 1], name);
        } else {
          assert s in slots[1..];
          var j :| 0 <= j < |tail| && Writes(tail[j], name);
          assert calls[|head| + j] == tail[j];
        }
      }
    }
  }

  lemma SamplerNamesDistinct(s: Slot, s': Slot)
    ensures SamplerUniform(s) == SamplerUniform(s') ==> s == s'
    ensures FlagUniform(s) == FlagUniform(s') ==> s == s'
  {
    match s
    case BaseColor => {}
    case MetallicRoughness =>
      assert SamplerUniform(s)[9] == 'm' && FlagUniform(s)[12] == 'M';
    case Normal =>
      assert SamplerUniform(s)[9] == 'n' && FlagUniform(s)[12] == 'N';
    case Occlusion =>
      assert SamplerUniform(s)[9] == 'o' && FlagUniform(s)[12] == 'O';
    case Emissive =>
      assert SamplerUniform(s)[9] == 'e' && FlagUniform(s)[12] == 'E';
  }

  /** The calls of `apply`, as written or as intended. */
  function ApplyCalls(m: Material, intended: bool): (calls: seq<GlCall>)
    ensures calls == ScalarCalls(m) + FlagCalls(m, Slots) + Binds(m, Slots, intended)
  {
    if intended then ApplyIntended(m) else Apply(m)
  }

  /** A scalar uniform ends up holding the value `apply` computed for it. */
  lemma ScalarUniformSet(m: Material, st: GlState, intended: bool, k: nat)
    requires k < 8
    ensures var u := Run(st, ApplyCalls(m, intended)).uniforms;
      ScalarNames()[k] in u && u[ScalarNames()[k]] == ScalarCalls(m)[k].value
  {
    var calls := ApplyCalls(m, intended);
    var scalars, flags, binds := ScalarCalls(m), FlagCalls(m, Slots), Binds(m, Slots, intended);
    var name := ScalarNames()[k];
    BindAllWrites(m, Slots, intended, name);
    forall s: Slot ensures SamplerUniform(s) != name && FlagUniform(s) != name {
      ScalarNamesAreNotSlotNames(s);
    }
    forall j | 0 <= j < |calls| && Writes(calls[j], name) ensures calls[j].value == scalars[k].value {
      if j < 8 {
        assert calls[j] == scalars[j];
        assert scalars[j].name == ScalarNames()[j] && scalars[k].name == ScalarNames()[k];
        ScalarNamesDistinct(j, k);
      }
    }
    ConsistentWrites(st, calls, name, scalars[k].value);
    assert calls[k] == scalars[k];
    assert Writes(calls[k], name);
  }

  /** A presence flag ends up 1 or 0 as its slot holds a texture or not. */
  lemma FlagUniformSet(m: Material, st: GlState, intended: bool, s: Slot)
    ensures var u := Run(st, ApplyCalls(m, intended)).uniforms;
      FlagUniform(s) in u && u[FlagUniform(s)] == Flag(Handle(m, s).Some?)
  {
    var calls := ApplyCalls(m, intended);
    var flags := FlagCalls(m, Slots);
    var name := FlagUniform(s);
    var k := SlotIndex(s);
    forall j | 0 <= j < |calls| && Writes(calls[j], name) ensures calls[j].value == Flag(Handle(m, s).Some?) {
      FlagWrite(m, intended, s, j);
    }
    ConsistentWrites(st, calls, name, Flag(Handle(m, s).Some?));
    assert calls[8 + k] == flags[k];
    assert Writes(calls[8 + k], name);
  }

  /** Every write of a slot's presence flag in `apply` is the slot's own
      flag call. */
  lemma FlagWrite(m: Material, intended: bool, s: Slot, j: nat)
    requires j < |ApplyCalls(m, intended)| && Writes(ApplyCalls(m, intended)[j], FlagUniform(s))
    ensures ApplyCalls(m, intended)[j].value == Flag(Handle(m, s).Some?)
  {
    var calls := ApplyCalls(m, intended);
    var flags, binds := FlagCalls(m, Slots), Binds(m, Slots, intended);
    var name := FlagUniform(s);
    if j < 8 {
      ScalarNamesAreNotSlotNames(s);
      assert false;
    } else if j < 13 {
      assert calls[j] == flags[j - 8];
      SamplerNamesDistinct(Slots[j - 8], s);
    } else {
      assert calls[j] == binds[j - 13];
      BindAllWrites(m, Slots, intended, name);
      forall s': Slot ensures SamplerUniform(s') != name {
        FlagIsNotSampler(s', s);
      }
    }
  }

  /** Every write of a slot's sampler in `apply` is made for that slot. */
  lemma SamplerWrite(m: Material, intended: bool, s: Slot, j: nat)
    requires j < |ApplyCalls(m, intended)| && Writes(ApplyCalls(m, intended)[j], SamplerUniform(s))
    ensures Handle(m, s).Some? && ApplyCalls(m, intended)[j].value == IntValue(Unit(s))
  {
    var calls := ApplyCalls(m, intended);
    var scalars, flags, binds := ScalarCalls(m), FlagCalls(m, Slots), Binds(m, Slots, intended);
    var name := SamplerUniform(s);
    if j < 8 {
      assert false;
    } else if j < 13 {
      assert calls[j] == flags[j - 8];
      FlagIsNotSampler(s, Slots[j - 8]);
    } else {
      assert calls[j] == binds[j - 13];
      BindAllWrites(m, Slots, intended, name);
      var s' :| s' in Slots && Handle(m, s').Some? && name == SamplerUniform(s') && binds[j - 13].value == IntValue(Unit(s'));
      SamplerNamesDistinct(s, s');
    }
  }

  /** The sampler of a present slot ends up naming the slot's unit; the
      sampler of an absent slot is left as it was. */
  lemma SamplerUniformSet(m: Material, st: GlState, intended: bool, s: Slot)
    ensures var u := Run(st, ApplyCalls(m, intended)).uniforms;
      && (Handle(m, s).Some? ==> SamplerUniform(s) in u && u[SamplerUniform(s)] == IntValue(Unit(s)))
      && (Handle(m, s).None? ==>
            (SamplerUniform(s) in u <==> SamplerUniform(s) in st.uniforms) &&
            (SamplerUniform(s) in st.uniforms ==> u[SamplerUniform(s)] == st.uniforms[SamplerUniform(s)]))
  {
    var calls := ApplyCalls(m, intended);
    var name := SamplerUniform(s);
    forall j | 0 <= j < |calls| && Writes(calls[j], name)
      ensures Handle(m, s).Some? && calls[j].value == IntValue(Unit(s))
    {
      SamplerWrite(m, intended, s, j);
    }
    if Handle(m, s).Some? {
      PresentSamplerWritten(m, intended, s);
    }
    ConsistentWrites(st, calls, name, IntValue(Unit(s)));
  }

  /** `apply` writes the sampler of a present slot at least once. */
  lemma PresentSamplerWritten(m: Material, intended: bool, s: Slot)
    requires Handle(m, s).Some?
    ensures exists j :: 0 <= j < |ApplyCalls(m, intended)| && Writes(ApplyCalls(m, intended)[j], SamplerUniform(s))
  {
    var calls := ApplyCalls(m, intended);
    var binds := Binds(m, Slots, intended);
    var name := SamplerUniform(s);
    BindAllWrites(m, Slots, intended, name);
    assert s in Slots;
    var j :| 0 <= j < |binds| && Writes(binds[j], name);
    assert calls[13 + j] == binds[j];
  }

  /** The uniform state `apply` leaves, whichever binding sequence it
      uses: scalars copied verbatim, exactly one alpha-mode flag set (the
      one of the material's mode), each presence flag 1 iff the slot holds
      a texture, and the sampler of each present slot set to the slot's
      unit; an absent slot's sampler is not touched. */
  lemma ApplyUniforms(m: Material, st: GlState, intended: bool)
    ensures var u := Run(st, ApplyCalls(m, intended)).uniforms;
      && "material.baseColor" in u && u["material.baseColor"] == Vec4Value(m.baseColor)
      && "material.metallic" in u && u["material.metallic"] == FloatValue(m.metallic)
      && "material.roughness" in u && u["material.roughness"] == FloatValue(m.roughness)
      && "material.emissiveFactor" in u && u["material.emissiveFactor"] == Vec3Value(m.emissiveFactor)
      && "material.alphaCutoff" in u && u["material.alphaCutoff"] == FloatValue(m.alphaCutoff)
      && "material.alphaModeOpaque" in u && "material.alphaModeBlend" in u && "material.alphaModeMask" in u
      && multiset{u["material.alphaModeOpaque"], u["material.alphaModeBlend"], u["material.alphaModeMask"]}
           == multiset{IntValue(1), IntValue(0), IntValue(0)}
      && (u["material.alphaModeOpaque"] == IntValue(1) <==> m.alphaMode == Opaque)
      && (u["material.alphaModeBlend"] == IntValue(1) <==> m.alphaMode == Blend)
      && (u["material.alphaModeMask"] == IntValue(1) <==> m.alphaMode == Mask)
      && (forall s: Slot :: FlagUniform(s) in u &&
            (u[FlagUniform(s)] == IntValue(1) <==> Handle(m, s).Some?) &&
            (u[FlagUniform(s)] == IntValue(0) <==> Handle(m, s).None?))
      && (forall s: Slot :: Handle(m, s).Some? ==>
            SamplerUniform(s) in u && u[SamplerUniform(s)] == IntValue(Unit(s)))
      && (forall s: Slot :: Handle(m, s).None? ==>
            (SamplerUniform(s) in u <==> SamplerUniform(s) in st.uniforms) &&
            (SamplerUniform(s) in st.uniforms ==> u[SamplerUniform(s)] == st.uniforms[SamplerUniform(s)]))
  {
    var u := Run(st, ApplyCalls(m, intended)).uniforms;
    var n := ScalarNames();
    ScalarUniformSet(m, st, intended, 0);
    ScalarUniformSet(m, st, intended, 1);
    ScalarUniformSet(m, st, intended, 2);
    ScalarUniformSet(m, st, intended, 3);
    ScalarUniformSet(m, st, intended, 4);
    ScalarUniformSet(m, st, intended, 5);
    ScalarUniformSet(m, st, intended, 6);
    ScalarUniformSet(m, st, intended, 7);
    forall s: Slot
      ensures FlagUniform(s) in u && u[FlagUniform(s)] == Flag(Handle(m, s).Some?)
    {
      FlagUniformSet(m, st, intended, s);
    }
    forall s: Slot
      ensures Handle(m, s).Some? ==> SamplerUniform(s) in u && u[SamplerUniform(s)] == IntValue(Unit(s))
      ensures Handle(m, s).None? ==>
        (SamplerUniform(s) in u <==> SamplerUniform(s) in st.uniforms) &&
        (SamplerUniform(s) in st.uniforms ==> u[SamplerUniform(s)] == st.uniforms[SamplerUniform(s)])
    {
      SamplerUniformSet(m, st, intended, s);
    }
  }

  function ScalarNames(): (names: seq<string>)
    ensures |names| == 8
  {
    [ "material.baseColor", "material.metallic", "material.roughness", "material.emissiveFactor",
      "material.alphaCutoff", "material.alphaModeOpaque", "material.alphaModeBlend", "material.alphaModeMask" ]
  }

  lemma ScalarNamesDistinct(i: nat, j: nat)
    requires i < 8 && j < 8 && ScalarNames()[i] == ScalarNames()[j]
    ensures i == j
  {
    var n := ScalarNames();
    assert |n[0]| == 18 && |n[1]| == 17 && |n[2]| == 18 && |n[3]| == 23;
    assert |n[4]| == 20 && |n[5]| == 24 && |n[6]| == 23 && |n[7]| == 22;
    assert n[0][9] == 'b' && n[2][9] == 'r';
    assert n[3][9] == 'e' && n[6][9] == 'a';
  }

  lemma ScalarNameIsNotSlotName(i: nat, s: Slot)
    requires i < 8
    ensures ScalarNames()[i] != SamplerUniform(s) && ScalarNames()[i] != FlagUniform(s)
  {
    ScalarNamesAreNotSlotNames(s);
  }

  /** Character 9, just past "material.", tells the name families apart:
      every presence flag has 'h' there and no sampler or scalar does. */
  lemma SlotNameChars(s: Slot)
    ensures |FlagUniform(s)| > 9 && FlagUniform(s)[9] == 'h'
    ensures |SamplerUniform(s)| > 9 && SamplerUniform(s)[9] != 'h'
    ensures (|SamplerUniform(s)|, SamplerUniform(s)[9]) in
      {(25, 'b'), (33, 'm'), (22, 'n'), (25, 'o'), (24, 'e')}
  {
    match s
    case BaseColor => {}
    case MetallicRoughness => {}
    case Normal => {}
    case Occlusion => {}
    case Emissive => {}
  }

  lemma ScalarNamesAreNotSlotNames(s: Slot)
    ensures forall i :: 0 <= i < 8 ==> ScalarNames()[i] != SamplerUniform(s) && ScalarNames()[i] != FlagUniform(s)
  {
    var n := ScalarNames();
    SlotNameChars(s);
    assert |n[0]| == 18 && n[0][9] == 'b';
    assert |n[1]| == 17 && n[1][9] == 'm';
    assert |n[2]| == 18 && n[2][9] == 'r';
    assert |n[3]| == 23 && n[3][9] == 'e';
    assert |n[4]| == 20 && n[4][9] == 'a';
    assert |n[5]| == 24 && n[5][9] == 'a';
    assert |n[6]| == 23 && n[6][9] == 'a';
    assert |n[7]| == 22 && n[7][9] == 'a';
  }

  lemma FlagIsNotSampler(s: Slot, s': Slot)
    ensures SamplerUniform(s) != FlagUniform(s')
  {
    SlotNameChars(s);
    SlotNameChars(s');
  }

  // ---- Texture units ----

  /** The texture of the last slot in `slots` that holds one. */
  function LastPresent(m: Material, slots: seq<Slot>): (r: Option<TextureName>)
    ensures r.Some? <==> exists s :: s in slots && Handle(m, s).Some?
    ensures r.Some? ==> exists i :: (0 <= i < |slots| && Handle(m, slots[i]) == r &&
      forall j :: i < j < |slots| ==> Handle(m, slots[j]).None?)
  {
    if |slots| == 0 then None
    else
      var rest := LastPresent(m, slots[1..]);
      if rest.Some? then
        assert forall j :: 0 < j < |slots| ==> slots[j] == slots[1..][j - 1];
        rest
      else
        assert forall s :: s in slots[1..] ==> Handle(m, s).None?;
        assert forall j :: 0 < j < |slots| ==> slots[j] in slots[1..];
        Handle(m, slots[0])
  }

  /** The units of the slots in `slots` that hold a texture. */
  function PresentUnits(m: Material, slots: seq<Slot>): set<nat> {
    set s | s in slots && Handle(m, s).Some? :: Unit(s)
  }

  predicate Unchanged(st: GlState, st': GlState, k: nat) {
    (k in st'.bound <==> k in st.bound) && (k in st.bound ==> st'.bound[k] == st.bound[k])
  }

  lemma RunBindCalls(st: GlState, s: Slot, t: TextureName)
    ensures Run(st, BindCalls(s, t)).bound == st.bound[0 := t]
    ensures Run(st, BindCalls(s, t)).activeUnit == 0
  {
    var c := BindCalls(s, t);
    var s1 := Execute(st, c[0]);
    var s2 := Execute(s1, c[1]);
    var s3 := Execute(s2, c[2]);
    var s4 := Execute(s3, c[3]);
    assert c[1..][1..] == c[2..] && c[2..][1..] == c[3..] && c[3..][1..] == [];
    calc {
      Run(st, c);
      Run(s1, c[1..]);
      Run(s2, c[2..]);
      Run(s3, c[3..]);
      Run(s4, []);
    }
  }

  lemma RunIntendedBindCalls(st: GlState, s: Slot, t: TextureName)
    ensures Run(st, IntendedBindCalls(s, t)).bound == st.bound[Unit(s) := t]
    ensures Run(st, IntendedBindCalls(s, t)).activeUnit == Unit(s)
  {
    var c := IntendedBindCalls(s, t);
    var s1 := Execute(st, c[0]);
    var s2 := Execute(s1, c[1]);
    var s3 := Execute(s2, c[2]);
    assert c[1..][1..] == c[2..] && c[2..][1..] == [];
    calc {
      Run(st, c);
      Run(s1, c[1..]);
      Run(s2, c[2..]);
      Run(s3, []);
    }
  }

  /** As written, every binding lands on unit 0: units other than 0 keep
      whatever they held, and unit 0 ends up with the last present
      texture. */
  lemma {:induction false} BindsAsWritten(m: Material, slots: seq<Slot>, st: GlState)
    ensures var f := Run(st, Binds(m, slots, false));
      && (forall k: nat :: k != 0 ==> Unchanged(st, f, k))
      && (LastPresent(m, slots).Some? ==>
            f.activeUnit == 0 && 0 in f.bound && f.bound[0] == LastPresent(m, slots).value)
      && (LastPresent(m, slots).None? ==> f.bound == st.bound && f.activeUnit == st.activeUnit)
    decreases |slots|
  {
    if |slots| > 0 {
      var head := match Handle(m, slots[0]) case Some(t) => BindCalls(slots[0], t) case None => [];
      var tail := Binds(m, slots[1..], false);
      assert Binds(m, slots, false) == head + tail;
      RunAppend(st, head, tail);
      var st1 := Run(st, head);
      if Handle(m, slots[0]).Some? {
        RunBindCalls(st, slots[0], Handle(m, slots[0]).value);
      } else {
        assert head == [];
      }
      BindsAsWritten(m, slots[1..], st1);
      var f := Run(st, Binds(m, slots, false));
      forall k: nat | k != 0 ensures Unchanged(st, f, k) {
        assert Unchanged(st1, f, k);
      }
    }
  }

  /** As intended, each present texture sits on its own slot's unit and
      no other unit changes. */
  lemma {:induction false} BindsAsIntended(m: Material, slots: seq<Slot>, st: GlState)
    requires forall i, j :: 0 <= i < j < |slots| ==> Unit(slots[i]) != Unit(slots[j])
    ensures var f := Run(st, Binds(m, slots, true));
      && (forall s :: s in slots && Handle(m, s).Some? ==>
            Unit(s) in f.bound && f.bound[Unit(s)] == Handle(m, s).value)
      && (forall k: nat :: k !in PresentUnits(m, slots) ==> Unchanged(st, f, k))
    decreases |slots|
  {
    if |slots| > 0 {
      var head := match Handle(m, slots[0]) case Some(t) => IntendedBindCalls(slots[0], t) case None => [];
      var tail := Binds(m, slots[1..], true);
      assert Binds(m, slots, true) == head + tail;
      RunAppend(st, head, tail);
      var st1 := Run(st, head);
      if Handle(m, slots[0]).Some? {
        RunIntendedBindCalls(st, slots[0], Handle(m, slots[0]).value);
      } else {
        assert head == [];
      }
      assert forall i, j :: 0 <= i < j < |slots[1..]| ==> slots[1..][i] == slots[i + 1] && slots[1..][j] == slots[j + 1];
      BindsAsIntended(m, slots[1..], st1);
      var f := Run(st, Binds(m, slots, true));
      assert Unit(slots[0]) !in PresentUnits(m, slots[1..]);
      forall k: nat | k !in PresentUnits(m, slots) ensures Unchanged(st, f, k) {
        assert k !in PresentUnits(m, slots[1..]);
        if Handle(m, slots[0]).Some? {
          assert k != Unit(slots[0]);
        }
      }
    }
  }

  lemma SlotUnitsDistinct()
    ensures forall i, j :: 0 <= i < j < |Slots| ==> Unit(Slots[i]) != Unit(Slots[j])
  {
  }

  /** The uniform part of `apply` leaves the texture units alone. */
  lemma ApplySplit(m: Material, st: GlState, intended: bool)
    ensures var mid := Run(st, ScalarCalls(m) + FlagCalls(m, Slots));
      && mid.bound == st.bound && mid.activeUnit == st.activeUnit
      && Run(st, ApplyCalls(m, intended)) == Run(mid, Binds(m, Slots, intended))
  {
    var scalars, flags, binds := ScalarCalls(m), FlagCalls(m, Slots), Binds(m, Slots, intended);
    RunAppend(st, scalars + flags, binds);
    RunAppend(st, scalars, flags);
    UniformsOnly(st, scalars);
    UniformsOnly(Run(st, scalars), flags);
  }

  /** The texture units after `apply` as written: no unit but 0 is ever
      bound, and unit 0 holds the texture of the last present slot. */
  lemma ApplyBindsOnUnitZero(m: Material, st: GlState)
    ensures var f := Run(st, Apply(m));
      && (forall k: nat :: k != 0 ==> Unchanged(st, f, k))
      && (LastPresent(m, Slots).Some? ==>
            f.activeUnit == 0 && 0 in f.bound && f.bound[0] == LastPresent(m, Slots).value)
      && (LastPresent(m, Slots).None? ==> f.bound == st.bound && f.activeUnit == st.activeUnit)
  {
    ApplySplit(m, st, false);
    var mid := Run(st, ScalarCalls(m) + FlagCalls(m, Slots));
    BindsAsWritten(m, Slots, mid);
    var f := Run(st, Apply(m));
    assert f == Run(mid, Binds(m, Slots, false));
    forall k: nat | k != 0 ensures Unchanged(st, f, k) {
      assert Unchanged(mid, f, k);
    }
  }

  /** The property `apply` is meant to have: the sampler of every present
      slot names a unit that holds that slot's texture. */
  ghost predicate SamplersSeeTheirTextures(m: Material, f: GlState) {
    forall s: Slot :: Handle(m, s).Some? ==>
      && SamplerUniform(s) in f.uniforms
      && f.uniforms[SamplerUniform(s)].IntValue?
      && f.uniforms[SamplerUniform(s)].i >= 0
      && f.uniforms[SamplerUniform(s)].i in f.bound
      && f.bound[f.uniforms[SamplerUniform(s)].i] == Handle(m, s).value
  }

  /** The intended `apply` has it from every starting state, and touches
      no unit that no present slot owns. */
  lemma ApplyIntendedBindsEachOnItsUnit(m: Material, st: GlState)
    ensures SamplersSeeTheirTextures(m, Run(st, ApplyIntended(m)))
    ensures forall k: nat :: k !in PresentUnits(m, Slots) ==> Unchanged(st, Run(st, ApplyIntended(m)), k)
  {
    ApplySplit(m, st, true);
    var mid := Run(st, ScalarCalls(m) + FlagCalls(m, Slots));
    SlotUnitsDistinct();
    BindsAsIntended(m, Slots, mid);
    var f := Run(st, ApplyIntended(m));
    assert f == Run(mid, Binds(m, Slots, true));
    forall s: Slot | Handle(m, s).Some?
      ensures SamplerUniform(s) in f.uniforms && f.uniforms[SamplerUniform(s)] == IntValue(Unit(s))
      ensures Unit(s) in f.bound && f.bound[Unit(s)] == Handle(m, s).value
    {
      SamplerUniformSet(m, st, true, s);
      assert s in Slots by { var k := SlotIndex(s); }
    }
    forall k: nat | k !in PresentUnits(m, Slots) ensures Unchanged(st, f, k) {
      assert Unchanged(mid, f, k);
    }
  }

  /** As written, a material whose only texture is a normal map leaves
      the normal sampler pointing at unit 2, which holds nothing (when it
      held nothing before); the map sits on unit 0. */
  lemma NormalMapSampledFromEmptyUnit(m: Material, st: GlState)
    requires m.normalTexture.Some?
    requires m.baseColorTexture.None? && m.metallicRoughnessTexture.None?
    requires m.occlusionTexture.None? && m.emissiveTexture.None?
    requires 2 !in st.bound
    ensures var f := Run(st, Apply(m));
      && "material.normalTexture" in f.uniforms && f.uniforms["material.normalTexture"] == IntValue(2)
      && 2 !in f.bound
      && 0 in f.bound && f.bound[0] == m.normalTexture.value
      && !SamplersSeeTheirTextures(m, f)
  {
    var f := Run(st, Apply(m));
    SamplerUniformSet(m, st, false, Normal);
    assert ApplyCalls(m, false) == Apply(m);
    ApplyBindsOnUnitZero(m, st);
    assert Unchanged(st, f, 2);
    assert LastPresent(m, Slots) == m.normalTexture;
  }

  /** A material without textures uploads its factors, clears every
      presence flag and binds nothing. */
  lemma TexturelessApplied(m: Material, st: GlState)
    requires forall s: Slot :: Handle(m, s).None?
    ensures var f := Run(st, Apply(m));
      && "material.baseColor" in f.uniforms && f.uniforms["material.baseColor"] == Vec4Value(m.baseColor)
      && "material.metallic" in f.uniforms && f.uniforms["material.metallic"] == FloatValue(m.metallic)
      && "material.roughness" in f.uniforms && f.uniforms["material.roughness"] == FloatValue(m.roughness)
      && "material.emissiveFactor" in f.uniforms && f.uniforms["material.emissiveFactor"] == Vec3Value(m.emissiveFactor)
      && "material.alphaCutoff" in f.uniforms && f.uniforms["material.alphaCutoff"] == FloatValue(m.alphaCutoff)
      && "material.alphaModeOpaque" in f.uniforms
      && (f.uniforms["material.alphaModeOpaque"] == IntValue(1) <==> m.alphaMode == Opaque)
      && (forall s: Slot :: FlagUniform(s) in f.uniforms && f.uniforms[FlagUniform(s)] == IntValue(0))
      && f.bound == st.bound
  {
    assert ApplyCalls(m, false) == Apply(m);
    ApplyUniforms(m, st, false);
    ApplyBindsOnUnitZero(m, st);
  }

  /** A default material sets the documented defaults and binds nothing. */
  lemma DefaultMaterialApplied(m: Material, st: GlState)
    requires m == DefaultMaterial()
    ensures var f := Run(st, Apply(m));
      && "material.baseColor" in f.uniforms && f.uniforms["material.baseColor"] == Vec4Value(Vec4(1.0, 1.0, 1.0, 1.0))
      && "material.metallic" in f.uniforms && f.uniforms["material.metallic"] == FloatValue(1.0)
      && "material.roughness" in f.uniforms && f.uniforms["material.roughness"] == FloatValue(1.0)
      && "material.emissiveFactor" in f.uniforms && f.uniforms["material.emissiveFactor"] == Vec3Value(Vec3(0.0, 0.0, 0.0))
      && "material.alphaCutoff" in f.uniforms && f.uniforms["material.alphaCutoff"] == FloatValue(0.5)
      && "material.alphaModeOpaque" in f.uniforms && f.uniforms["material.alphaModeOpaque"] == IntValue(1)
      && (forall s: Slot :: FlagUniform(s) in f.uniforms && f.uniforms[FlagUniform(s)] == IntValue(0))
      && f.bound == st.bound
  {
    TexturelessApplied(m, st);
  }
}
