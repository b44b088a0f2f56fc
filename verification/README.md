# Rollup configuration: global-CSS rebuild coordinator and warning filter

The bundler configuration of this Sapper/Svelte application is almost all
option objects handed to third-party plugins. It holds two pieces of logic of
its own, and this project models both and proves properties about them.

- **The `onwarn` hook** (module `Warnings`, `warnings.dfy`). Both bundles use it. It
  suppresses `MISSING_EXPORT` warnings whose message contains `'preload'`. It also
  suppresses `CIRCULAR_DEPENDENCY` warnings whose message contains `@sapper` between
  two path separators, each of which may be `/` or `\`. Every other warning goes to
  Rollup's default handler. The two regular expressions are written in a small pattern
  language: a sequence of character classes, searched for left to right. The search
  is proved to be a plain substring test. For the `@sapper` pattern, that means one of
  four literal spellings.
- **The global-CSS rebuild coordinator** (modules `RebuildSpec`, `rebuild_spec.dfy`,
  and `GlobalCss`, `global_css.dfy`). This plugin of the client bundle runs
  `build-global-css.mjs` in a child process. Its state is two closure variables:
  - `builder`: the running child process, if any;
  - `rebuildNeeded`: whether a rebuild was asked for meanwhile.

  `buildGlobalCSS` is called by the `buildStart` and `generateBundle` hooks. While no
  builder is set, it starts one; while one is set, it only raises the flag. When the
  child process closes, the handler reports the result and clears `builder`. If the
  flag was raised, it then starts exactly one follow-up build.

  `RebuildSpec` states this as a state machine over values, with lemmas about
  histories of events. `GlobalCss.Coordinator` is the class that updates the
  variables in place; each of its methods is proved to take the step the state
  machine prescribes.

Conventions of the model:

- A spawned process is identified by its launch number. The model counts launches
  and closes.
- Console output is a log of `Report` values: `Built`, `Failed(code)`,
  `RebuildRequested` and `SpawnFailed`.
- Whether `spawn` succeeds is an input (`spawnOk`). So is the exit code of a close:
  `None` stands for JavaScript's `null`.
- Development mode (`NODE_ENV === "development"`, rollup.config.js:18-19) is the `dev`
  field.
- A close in production mode with a non-zero code throws. The handler returns the
  thrown code, and nothing after the throw runs: `builder` stays set. The machine
  is then `Stuck`: no process runs, so no close can ever arrive, and every later
  trigger only raises the flag.

## Model

| member | source | states |
|---|---|---|
| `Warnings.OnWarn` | rollup.config.js:28-32 | A warning is suppressed (no call to the default handler) exactly when it is a `MISSING_EXPORT` whose message contains `'preload'` or a `CIRCULAR_DEPENDENCY` whose message contains `@sapper` between separators; otherwise it is forwarded exactly once, unchanged |
| `Warnings.TestFindsMatch` | rollup.config.js:29-31 | The left-to-right search used for `RegExp.test` succeeds exactly when the pattern matches at some position of the message |
| `Warnings.TestLiteral` | rollup.config.js:29 | Searching for a pattern without character classes is a substring test |
| `Warnings.PreloadTestMeans` | rollup.config.js:29 | `/'preload'/.test(message)` holds exactly when `'preload'` occurs in the message |
| `Warnings.SeparatorChoices` | rollup.config.js:31 | A 9-character text is a separator, `@sapper`, a separator exactly when it is one of `/@sapper/`, `/@sapper\`, `\@sapper/`, `\@sapper\` |
| `Warnings.SapperTestMeans` | rollup.config.js:31 | `/[/\\]@sapper[/\\]/.test(message)` holds exactly when one of those four spellings occurs in the message |
| `RebuildSpec.TriggerStep` | rollup.config.js:79-93 | A trigger while a builder is set changes only the flag, to true, and launches nothing. A trigger while idle clears the flag and launches exactly one process, or, when spawning throws, reports the failure and stays idle. The invariant holds afterwards |
| `RebuildSpec.CloseStep` | rollup.config.js:97-131 | The close of the running build throws exactly for a non-zero code in production mode, and then leaves `builder` set with no process running (stuck). Otherwise the builder is cleared, the flag ends false, and one follow-up process is launched exactly when the flag was set and the spawn succeeds. The invariant holds afterwards |
| `RebuildSpec.CloseReports` | rollup.config.js:98-129 | A close reports success exactly for code 0, and a failure with code `c` exactly for a non-zero `c` in development mode. It reports nothing for a missing code. It announces a follow-up exactly when the flag was set and the handler did not throw. Earlier reports are kept |
| `RebuildSpec.Run` | rollup.config.js:75-146 | After any possible history of triggers and closes, the invariant holds. At most one process runs, and it is the one `builder` holds. A pending rebuild exists only while a builder is set. Only production mode can get stuck |
| `RebuildSpec.TriggersWhileBusy` | rollup.config.js:80-83 | Any number of triggers while a builder is set change nothing but the flag |
| `RebuildSpec.Coalescing` | rollup.config.js:80-84 | However many triggers arrive during one build, its non-fatal close launches exactly one follow-up build and announces it exactly once |
| `RebuildSpec.NoTriggerNoFollowUp` | rollup.config.js:120-122 | A non-fatal close with no trigger during the build launches nothing and leaves the coordinator idle |
| `RebuildSpec.IdleTriggersEachBuild` | rollup.config.js:84-108 | With no overlap, `n` triggers, each followed by a successful close, run `n` builds and report `n` successes, ending idle |
| `RebuildSpec.StuckIsTerminal` | rollup.config.js:80-83 | In the stuck state, every possible later event is a trigger. The state stays stuck, launches nothing and reports nothing |
| `RebuildSpec.FatalCloseSticks` | rollup.config.js:113-120 | After a production-mode failure, no history ever launches another build or clears `builder` |
| `GlobalCss.Coordinator.constructor` | rollup.config.js:76-77 | The plugin starts idle with the flag cleared |
| `GlobalCss.Coordinator.BuildGlobalCss` | rollup.config.js:79-136 | The in-place trigger takes exactly the step `TriggerStep` prescribes and keeps the invariant |
| `GlobalCss.Coordinator.OnClose` | rollup.config.js:97-131 | The in-place close handler takes exactly the step `CloseStep` prescribes, including the throw, and keeps the invariant |

## Left out

- The option objects of the client and server bundles (rollup.config.js:34-74, 147-186). They are declarative configuration for third-party plugins and have no behaviour of their own.
- postcss.config.js as a whole. It is a plugin list. Its only logic is dropping the minifier in development mode with `.filter(Boolean)`.
- The actual process spawn: its argument list, the piping of stdout and stderr, and the coloured console text (rollup.config.js:88-95, 100-108, 111-112, 123-128). A spawn is a counted launch, and console output is a `Report`. The model assumes the two `pipe` calls do not throw. If one did throw, `builder` would be set with no close handler registered.
- Elapsed-time measurement with `performance.now()` and `parseInt` (rollup.config.js:85, 99). It is wall-clock timing, appears only in the success message, and does not affect control flow.
- The `sourcemap === true` part of the success message (rollup.config.js:106). `sourcemap` is only ever `"inline"` or `false` (rollup.config.js:20).
- The hook wiring and watch-file registration (rollup.config.js:138-145). Both `buildStart` and `generateBundle` are modelled as a call of `BuildGlobalCss`, and `addWatchFile` is not modelled.
- What Node.js does with the error thrown by the close handler in production mode. It is uncaught, so in practice the bundler process ends. The model records the throw and keeps the state the handler leaves behind.
- `onwarn` for a warning without a message. Every warning is modelled with a string message. JavaScript would instead test the text `"undefined"`, which matches neither pattern.
- The commented-out service-worker bundle (rollup.config.js:188-203).
