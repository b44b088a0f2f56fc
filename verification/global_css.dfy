/**
 The rebuild coordinator as the bundler plugin keeps it: two variables that
 its trigger and the builder's close handler update in place. Each method is
 proved to take the step the state machine of `RebuildSpec` prescribes, so
 every property proved there holds of the object.
 */
module GlobalCss {
  import opened Wrappers
  import opened RebuildSpec

  class Coordinator {
    const dev: bool
    var builder: Option<nat>
    var rebuildNeeded: bool
    // Bookkeeping of the model: processes spawned and closed, and the console output.
    var launches: nat
    var closes: nat
    var log: seq<Report>

    /** The object's state as a value of the state machine. */
    function Model(): State
      reads this
    {
      State(dev, builder, rebuildNeeded, launches, closes, log)
    }

    ghost predicate Valid()
      reads this
    {
      Inv(Model())
    }

    /** The plugin is created idle, in the given mode. */
    constructor (dev: bool)
      ensures Valid() && Model() == Initial(dev)
    {
      this.dev := dev;
      builder := None;
      rebuildNeeded := false;
      launches, closes, log := 0, 0, [];
    }

    /**
     `buildGlobalCSS`, the target of the `buildStart` and `generateBundle`
     hooks. `spawnOk` says whether starting the builder process succeeds.
     */
    method BuildGlobalCss(spawnOk: bool)
      requires Tracks(Model())
      modifies this
      ensures Valid()
      ensures Model() == TriggerStep(old(Model()), spawnOk)
    {
      if builder.Some? {
        rebuildNeeded := true;
        return;
      }
      rebuildNeeded := false;
      if spawnOk {
        builder := Some(launches);
        launches := launches + 1;
      } else {
        log := log + [SpawnFailed];
      }
    }

    /**
     The `close` handler of the running builder. `thrown` is the exit code the
     handler throws with in production mode; `spawnOk` is the outcome of the
     follow-up spawn, should there be one.
     */
    method OnClose(code: Option<int>, spawnOk: bool) returns (thrown: Option<int>)
      requires Valid() && Running(Model()) == 1
      modifies this
      ensures Valid()
      ensures CloseStep(old(Model()), code, spawnOk) == CloseOutcome(Model(), thrown)
    {
      closes := closes + 1;
      if code == Some(0) {
        log := log + [Built];
      } else if code.Some? {
        if dev {
          log := log + [Failed(code.value)];
        } else {
          thrown := code;
          return;
        }
      }
      thrown := None;
      builder := None;
      if rebuildNeeded {
        log := log + [RebuildRequested];
        BuildGlobalCss(spawnOk);
      }
    }
  }
}
