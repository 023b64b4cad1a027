/** The CPU raytracer of src/raytracing/raytracer/cpu_raytracer.rs as a
    render-state machine over `RaytracerState`
    (src/raytracing/raytracer/mod.rs:12-27). The worker pool is outside the
    model: it is represented by the works submitted to it, and what its
    `collect_finished` returns is a parameter of `Update`. */
module Raytracer {
  import opened Wrappers
  import Textures
  import Work
  import Generator

  datatype RaytracerState =
    | Created
    | Running(commissioned: nat, completed: nat)
    | Paused(commissioned: nat, completed: nat)
    | Finished(commissioned: nat, completed: nat)
    | Stopped

  /** `RaytracerSettings` (src/raytracing/raytracer/mod.rs:46-52). */
  datatype RaytracerSettings = RaytracerSettings(
    width: nat, height: nat, samplesPerPixel: nat, maxBounces: nat,
    generationMode: Generator.GenerationMode)

  /** A finished pixel as the pool reports it. Colour channels are only
      copied; they are reals here. */
  datatype PixelResult = PixelResult(x: nat, y: nat, color: Textures.Color<real>)

  /** The state `update` leaves after collecting `collected` results
      (src/raytracing/raytracer/cpu_raytracer.rs:87-118): only a running
      render changes, by counting the results and finishing once the count
      reaches the commissioned pixels. */
  function UpdatedState(s: RaytracerState, collected: nat): (r: RaytracerState)
    ensures !s.Running? ==> r == s
    ensures s.Running? ==> (r.Running? || r.Finished?) && r.commissioned == s.commissioned
    ensures s.Running? ==> r.completed == s.completed + collected
    ensures s.Running? ==> (r.Finished? <==> s.completed + collected >= s.commissioned)
  {
    match s
    case Running(commissioned, completed) =>
      if completed + collected >= commissioned then Finished(commissioned, completed + collected)
      else Running(commissioned, completed + collected)
    case _ => s
  }

  /** Two updates of a render that is still running after the first count
      the same as one update with all the results. */
  lemma UpdatesCompose(s: RaytracerState, a: nat, b: nat)
    requires s.Running? && UpdatedState(s, a).Running?
    ensures UpdatedState(UpdatedState(s, a), b) == UpdatedState(s, a + b)
  {
  }

  /** A freshly started render finishes with the update whose results reach
      the commissioned count, and not before. */
  lemma FreshRenderFinishes(commissioned: nat, collected: nat)
    ensures UpdatedState(Running(commissioned, 0), collected).Finished? <==> collected >= commissioned
  {
  }

  /** The buffer after `update` writes each result in order into a Clamp
      texture (src/raytracing/raytracer/cpu_raytracer.rs:94-97). */
  function PaintAll(values: seq<real>, width: nat, height: nat, results: seq<PixelResult>): (r: seq<real>)
    requires Textures.IsBuffer(values, width, height)
    ensures Textures.IsBuffer(r, width, height)
    decreases |results|
  {
    if results == [] then values
    else
      var before := PaintAll(values, width, height, results[..|results| - 1]);
      var last := results[|results| - 1];
      Textures.AddressableUnlessMirror(before, width, height, Textures.Clamp, last.x, last.y);
      Textures.Painted(before, width, height, Textures.Clamp, last.x, last.y, last.color)
  }

  /** The pixel of the last result shows that result's colour. */
  lemma LastResultShows(values: seq<real>, width: nat, height: nat, results: seq<PixelResult>)
    requires Textures.IsBuffer(values, width, height) && results != []
    ensures var r := PaintAll(values, width, height, results);
      var last := results[|results| - 1];
      Textures.Addressable(r, width, height, Textures.Clamp, last.x, last.y)
      && Textures.PixelAt(r, width, height, Textures.Clamp, last.x, last.y) == Some(last.color)
  {
    var before := PaintAll(values, width, height, results[..|results| - 1]);
    var last := results[|results| - 1];
    Textures.AddressableUnlessMirror(before, width, height, Textures.Clamp, last.x, last.y);
    Textures.PixelAfterPaint(before, width, height, Textures.Clamp, last.x, last.y, last.color);
    var r := PaintAll(values, width, height, results);
    Textures.AddressableUnlessMirror(r, width, height, Textures.Clamp, last.x, last.y);
  }

  class CPURaytracer {
    var texture: Textures.Texture<real>
    var settings: RaytracerSettings
    /** `current_workers`: the pool, as the works submitted to it. */
    var currentWorkers: Option<seq<Work.RaytracingWork>>
    var state: RaytracerState

    /** The texture matches the settings and wraps by Clamp; a running
        render has a pool, which `update`'s `unwrap` relies on. */
    predicate Valid()
      reads this, texture
    {
      && texture.Valid() && texture.wrapMode == Textures.Clamp
      && texture.width == settings.width && texture.height == settings.height
      && (state.Running? ==> currentWorkers.Some?)
    }

    /** `CPURaytracer::new` (src/raytracing/raytracer/cpu_raytracer.rs:20-35):
        a transparent black Clamp texture of the configured size, no pool,
        state `Created`. Zero sizes make `NonZeroU32::new(..).unwrap()`
        panic. */
    constructor New(settings: RaytracerSettings)
      requires settings.width >= 1 && settings.height >= 1
      ensures Valid() && fresh(texture) && fresh(texture.values)
      ensures this.settings == settings && currentWorkers == None && state == Created
      ensures forall i :: 0 <= i < texture.values.Length ==> texture.values[i] == 0.0
    {
      var black := Textures.Color(0.0, 0.0, 0.0, 0.0);
      texture := new Textures.Texture.New(settings.width, settings.height, Textures.Clamp, black);
      this.settings := settings;
      currentWorkers := None;
      state := Created;
    }

    /** `stop_rendering` (src/raytracing/raytracer/cpu_raytracer.rs:69-72):
        whatever the state, the pool is dropped and the render is stopped. */
    method StopRendering()
      requires Valid()
      modifies this
      ensures Valid()
      ensures currentWorkers == None && state == Stopped
      ensures texture == old(texture) && settings == old(settings)
    {
      currentWorkers := None;
      state := Stopped;
    }

    /** `start_rendering` (src/raytracing/raytracer/cpu_raytracer.rs:39-67):
        stops, clears the texture to opaque black, generates the works of the
        configured mode into a new pool and starts counting. The pool's
        `add_work` is `accepts`; the `unwrap` on `generate` needs a pool that
        takes every work. */
    method StartRendering(accepts: (seq<Work.RaytracingWork>, Work.RaytracingWork) -> bool)
      requires Valid()
      requires Generator.WellFormed(settings.generationMode)
      requires forall done, w :: accepts(done, w)
      modifies this, texture.values
      ensures Valid() && texture == old(texture) && settings == old(settings)
      ensures state == Running(settings.width * settings.height, 0)
      ensures currentWorkers.Some?
      ensures Generator.Generated(settings.generationMode, settings.width, settings.height, currentWorkers.value)
      ensures forall i :: 0 <= i < texture.values.Length ==> texture.values[i] == Textures.Channel(Textures.Color(0.0, 0.0, 0.0, 1.0), i % 4)
    {
      StopRendering();
      texture.Clear(Textures.Color(0.0, 0.0, 0.0, 1.0));
      var generator := Generator.WorkGenerator(settings.width, settings.height, settings.generationMode);
      var result, works, submitted := Generator.Generate(generator, accepts);
      assert result.Ok?;
      assert submitted == works[..|works|] == works;
      state := Running(settings.width * settings.height, 0);
      currentWorkers := Some(submitted);
    }

    /** `restart_rendering` (src/raytracing/raytracer/cpu_raytracer.rs:74-77). */
    method RestartRendering(accepts: (seq<Work.RaytracingWork>, Work.RaytracingWork) -> bool)
      requires Valid()
      requires Generator.WellFormed(settings.generationMode)
      requires forall done, w :: accepts(done, w)
      modifies this, texture.values
      ensures Valid() && texture == old(texture) && settings == old(settings)
      ensures state == Running(settings.width * settings.height, 0)
      ensures currentWorkers.Some?
      ensures Generator.Generated(settings.generationMode, settings.width, settings.height, currentWorkers.value)
      ensures forall i :: 0 <= i < texture.values.Length ==> texture.values[i] == Textures.Channel(Textures.Color(0.0, 0.0, 0.0, 1.0), i % 4)
    {
      StopRendering();
      StartRendering(accepts);
    }

    /** `update` (src/raytracing/raytracer/cpu_raytracer.rs:87-118). While
        running it writes each collected result into the texture and counts
        it; every other state is left alone. `collected` is what the pool's
        `collect_finished` returns. */
    method Update(collected: seq<PixelResult>)
      requires Valid()
      modifies this, texture.values
      ensures Valid() && texture == old(texture) && settings == old(settings)
      ensures currentWorkers == old(currentWorkers)
      ensures state == UpdatedState(old(state), |collected|)
      ensures old(state).Running? ==> texture.values[..] == PaintAll(old(texture.values[..]), settings.width, settings.height, collected)
      ensures !old(state).Running? ==> texture.values[..] == old(texture.values[..])
    {
      match state
      case Running(commissioned, completed0) =>
        var completed := completed0;
        for i := 0 to |collected|
          invariant completed == completed0 + i
          invariant texture == old(texture) && settings == old(settings)
          invariant currentWorkers == old(currentWorkers) && state == old(state)
          invariant Textures.IsBuffer(texture.values[..], settings.width, settings.height)
          invariant texture.values[..] == PaintAll(old(texture.values[..]), settings.width, settings.height, collected[..i])
        {
          var result := collected[i];
          Textures.AddressableUnlessMirror(texture.values[..], texture.width, texture.height, Textures.Clamp, result.x, result.y);
          texture.SetPixel(result.x, result.y, result.color);
          assert collected[..i + 1][..i] == collected[..i];
          completed := completed + 1;
        }
        assert collected[..|collected|] == collected;
        if completed >= commissioned {
          state := Finished(commissioned, completed);
        } else {
          state := Running(commissioned, completed);
        }
      case _ =>
    }

    /** `get_state` (src/raytracing/raytracer/cpu_raytracer.rs:128-130). */
    function GetState(): (r: RaytracerState)
      reads this, texture
      ensures r == state
      ensures Valid() && r.Running? ==> currentWorkers.Some?
    {
      state
    }
  }
}
