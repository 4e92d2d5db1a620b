# Review widget: to-do list, focus/break timer and contact form

A Dafny model of the logic inside `app.js`, a single-page productivity widget.
The page has three independent parts:

- **To-do list.** An ordered sequence of tasks `{id, text, done, createdAt}`, newest first. It supports add, toggle, delete, inline edit, clear completed, a three-way filter (all / active / done) and a counter of open tasks.
- **Pomodoro timer.** A two-phase countdown (focus, break). It supports start, pause and stop, a one-second tick that flips the phase when time runs out, and an "apply" button that clamps the configured minutes and resets the timer.
- **Contact form.** It validates an e-mail address against a fixed regular expression and checks a message for at least five characters after trimming. Live validation ignores blank fields. Submit validation calls them required. Only when both fields pass is the request built.

It also models the helpers these parts rely on: JavaScript's `trim` and its white-space class, `escapeHtml`, `pad2`/`String(n)`, and the `mm:ss` clock split.

Every operation is a pure function on immutable values:

- a task list is a `seq<Task>`;
- a timer is a `Timer` record;
- form fields are strings.

Ids, timestamps and the passing of time are explicit inputs.

Modules, one per component:

| file | module | models |
|---|---|---|
| `wrappers.dfy` | `Wrappers` | `Option` |
| `text.dfy` | `Text` | the ECMAScript white-space set; `trim` |
| `todos.dfy` | `Todos` | tasks, filtering (`Array.prototype.filter` as `Select`), the list handlers, the list invariant |
| `pomodoro.dfy` | `Pomodoro` | timer state, start/pause/stop/tick, configuration clamping |
| `format.dfy` | `Format` | `String(n)`, `pad2`, the minute/second split and the clock text |
| `escape.dfy` | `Escape` | `escapeHtml` as a chain of `replaceAll`, its single-pass equivalent, and an unescaper |
| `contact.dfy` | `Contact` | the e-mail regular expression, the message rule, live and submit validation, the submission gate |

Two details of `app.js` that the model follows:

- **Defaults when applying the timer settings.** Only an empty settings field falls back to the 25/5 default (`value || 25`). A field holding `"0"` becomes 0 and is then clamped up to 1. Non-numeric text becomes `NaN` rather than a default; see "Left out".
- **The filter name.** Any filter name other than `"active"` and `"done"` shows every task.

## Model

| member | source | states |
|---|---|---|
| Text.Trim | app.js:128 | `trim` yields a piece of the input with no white space at either end; the input is white space before and after it; the result is empty exactly when the input is all white space |
| Text.TrimUnique | app.js:128 | a string seen as white space, a non-empty middle that neither begins nor ends with white space, and white space trims to exactly that middle |
| Text.TrimIdempotent | app.js:177-179 | trimming an already trimmed text changes nothing, so stored task texts stay trimmed |
| Todos.Select | app.js:81-82 | filtering yields an order-preserving subsequence whose members all pass the test, holding every passing task exactly as often as the list does |
| Todos.SelectIsUnique | app.js:81-82 | that contract determines the filtered list: any sequence meeting it equals the filter's result |
| Todos.Visible | app.js:80-84 | `all` shows the whole list; `active` shows exactly the not-done tasks, each as often as the list holds it; `done` likewise the done tasks; each view keeps list order |
| Todos.ActiveDonePartition | app.js:80-84 | the active view and the done view together are as long as the list |
| Todos.ActiveViewIsCounter | app.js:80-89 | the open-task counter equals the length of the "active" view |
| Todos.ActiveCount | app.js:89 | the open-task counter plus the length of the done view is the length of the list |
| Todos.Add | app.js:126-131 | whitespace-only input leaves the list unchanged; otherwise one open task with the trimmed, non-empty text, the given id and time is put in front of the unchanged list |
| Todos.AddWellFormed | app.js:128-131 | adding with a fresh id keeps ids distinct and texts non-empty and trimmed |
| Todos.AddThenDelete | app.js:126-155 | deleting the id of a task just added with a fresh id restores the old list |
| Todos.AddActiveCount | app.js:128-131 | a successful add raises the open-task counter by one, an ignored add leaves it alone |
| Todos.Toggle | app.js:144 | length, order, ids, texts and timestamps are kept; `done` flips exactly on the tasks whose id is the clicked one |
| Todos.ToggleTwice | app.js:144 | toggling the same id twice restores the list |
| Todos.ToggleAbsent | app.js:144 | toggling an id no task has changes nothing |
| Todos.ToggleWellFormed | app.js:144 | toggling keeps the list invariant |
| Todos.ToggleActiveCount | app.js:144 | with distinct ids, toggling a task moves the open-task counter by one: up if it was done, down if not |
| Todos.Delete | app.js:151 | exactly the tasks whose id differs from the deleted one remain, each as often as before and in their original order, and the id is gone |
| Todos.DeleteAbsent | app.js:151 | deleting an id no task has changes nothing |
| Todos.DeleteOne | app.js:151 | with distinct ids, deleting an id in use removes exactly one task |
| Todos.DeleteWellFormed | app.js:151 | deleting keeps the list invariant |
| Todos.Edit | app.js:176-183 | a cancel, or a save whose trimmed text is empty, leaves the list unchanged; otherwise only the texts of tasks with the edited id change, to the trimmed text; ids, flags, timestamps and length stay |
| Todos.EditInvariants | app.js:176-183 | editing keeps the list invariant and the open-task counter |
| Todos.ClearCompleted | app.js:204 | exactly the not-done tasks remain, each as often as before and in their original order; the open-task counter is unchanged and equals the new length |
| Todos.ClearCompletedViews | app.js:204 | after clearing, the active view is the old active view and the done view is empty; a well-formed list stays well formed |
| Pomodoro.Initial | app.js:222-229 | the page starts idle at the top of a focus phase; with a valid configuration that state satisfies the timer invariant |
| Pomodoro.DefaultStart | app.js:222-229 | with nothing stored the page opens on a valid timer at rest, 25-minute focus (1500 s on the clock) and 5-minute break |
| Pomodoro.Start | app.js:245-250 | start on a running timer is a no-op; otherwise only the running flag is set |
| Pomodoro.Pause | app.js:269-276 | pause on a stopped timer is a no-op; pause never changes the phase, the seconds left or the configuration |
| Pomodoro.Stop | app.js:278-283 | stop always leaves the timer idle in focus mode with the full focus length, configuration kept |
| Pomodoro.Tick | app.js:251-264 | with more than one second left a tick only decrements; otherwise it flips the phase and loads the new phase's minutes times 60; it preserves the invariant of 1 to phase-length seconds left |
| Pomodoro.Second | app.js:245-276 | a second of wall-clock time moves only a running timer, and keeps the invariant |
| Pomodoro.Run | app.js:251-276 | however many seconds pass, the configuration stays as it was, and a paused or stopped timer does not move |
| Pomodoro.RunValid | app.js:251-264 | the invariant holds after any number of seconds, so the clock never shows 0 after a tick |
| Pomodoro.CountDown | app.js:251-253 | while fewer seconds pass than are left, a running timer counts down one per second |
| Pomodoro.PhaseFlip | app.js:251-264 | after exactly the seconds left, the timer is running at the top of the other phase |
| Pomodoro.FocusPhaseLength | app.js:228-264 | started from rest, a focus phase lasts its minutes times 60 seconds, then a full break begins |
| Pomodoro.PauseThenStart | app.js:245-276 | pausing and restarting resumes from exactly the paused state |
| Pomodoro.StopIdempotent | app.js:278-283 | stopping twice is stopping once; a timer at rest stops to itself |
| Pomodoro.Clamp | app.js:304-305 | `Math.max(lo, Math.min(hi, v))` lies in `[lo, hi]`, keeps in-range values, and maps values below and above to the ends |
| Pomodoro.ReadMinutes | app.js:304-305 | a settings field yields minutes in `[1, max]`; an in-range number is kept, a number below 1 gives 1, a number above `max` gives `max`, and an empty field gives the default |
| Pomodoro.ApplyConfig | app.js:303-309 | apply yields a valid, idle, focus-mode timer at the full new focus length, configured with the clamped field values |
| Pomodoro.ApplyConfigExamples | app.js:303-309 | (30, 10) while running gives focus mode with 1800 s; empty fields give 25/5; (0, 999) gives 1/60 |
| Format.NatToString | app.js:29 | `String(n)` is a non-empty digit string that reads back as `n` and starts with `0` only for 0 itself; one digit exactly below 10, at most two exactly below 100, at most three below 1000 |
| Format.IntToString | app.js:29 | `String(n)` carries a minus sign exactly for negative `n`, followed by the digits of the magnitude without leading zeros |
| Format.Pad2 | app.js:28-30 | `pad2` is at least two characters long and ends with `String(n)`; a `String(n)` of two or more characters comes back unchanged; for naturals it reads back as `n`; below 100 it is exactly two digits |
| Format.SplitClock | app.js:238-241 | for a non-negative count, minutes times 60 plus seconds is the count, with seconds in `[0, 60)` |
| Format.ClockText | app.js:238-241 | for a non-negative count the clock text is a digit field of at least two characters, a colon and a two-digit seconds field |
| Format.ClockTextReadsBack | app.js:238-241 | for every non-negative count the minute field times 60 plus the seconds field is the count, with the seconds field below 60; the text is `mm:ss` exactly under 100 minutes, and the minute field has at most three digits under 1000 minutes, which covers the 180-minute longest focus phase |
| Escape.ReplaceAll | app.js:117-124 | with a replacement free of `$` (all five in `escapeHtml` are), on one character the pattern becomes the replacement and anything else stays; replacing a character that does not occur changes nothing; a replacement without the pattern leaves no copy of it |
| Escape.ReplaceAllAppend | app.js:117-124 | `replaceAll` works piecewise: replacing in a concatenation is concatenating the replaced pieces, so with the one-character clause the result is fixed for every string, for replacements without `$` |
| Escape.EntitiesLiteral | app.js:119-123 | none of the five entity strings contains `$`, so JavaScript inserts them literally |
| Escape.ReplaceAllLength | app.js:117-124 | each occurrence of the pattern trades one character for the replacement's length |
| Escape.ReplaceAllChars | app.js:117-124 | every character other than the pattern survives, and nothing appears that is not in the input or the replacement |
| Escape.EscapeHtml | app.js:117-124 | the output of `escapeHtml` holds none of `<`, `>`, `"`, `'` |
| Escape.EscapeHtmlChar | app.js:117-124 | the five-step chain maps each single character to its entity (or to itself) |
| Escape.EscapeHtmlIsSinglePass | app.js:117-124 | because `&` is replaced first, the chain equals escaping each character once, so no entity is escaped twice |
| Escape.NoMarkupChars | app.js:117-124 | the escaped text contains no `<`, `>`, `"` or `'` |
| Escape.AmpersandsBeginEntities | app.js:117-124 | every `&` in the escaped text begins one of the five entities |
| Escape.UnescapeEscapeEach | app.js:117-124 | reading the entities back recovers the original text |
| Escape.EscapeHtmlSafe | app.js:117-124 | `escapeHtml`'s output has no markup characters, only entity ampersands, and unescapes to its input |
| Contact.IndexOf | app.js:329-332 | the first occurrence of a character, or none exactly when it does not occur |
| Contact.ValidateEmail | app.js:329-332 | an accepted address has exactly one `@` and no white space |
| Contact.ValidateEmailIsPattern | app.js:329-332 | `validateEmail` accepts exactly the language of `^[^\s@]+@[^\s@]+\.[^\s@]+$` |
| Contact.ValidateEmailCharacterized | app.js:329-332 | an address is accepted exactly when it has no white space, exactly one `@` with something before it, and a dot after the `@` that is neither first nor last in the domain part |
| Contact.AcceptedExample | app.js:329-332 | `a@b.co` is accepted |
| Contact.MissingPartExamples | app.js:329-332 | `a@b` and `ab.co` are rejected |
| Contact.ForbiddenCharExamples | app.js:329-332 | `a@b@c.d` and `a b@c.d` are rejected |
| Contact.ValidMessage | app.js:371-373 | a message passes exactly when it is white space, then at least five characters neither beginning nor ending with white space, then white space |
| Contact.LiveEmailError | app.js:344-347 | live validation never flags a blank e-mail field; otherwise it flags exactly the malformed ones |
| Contact.LiveMessageError | app.js:344-348 | live validation flags a message exactly when it is not blank and has fewer than five characters once trimmed |
| Contact.SubmitEmailError | app.js:363-369 | on submit a blank e-mail field is "required", and the field passes exactly when the trimmed text is an address |
| Contact.SubmitMessageError | app.js:364-373 | on submit a blank message is "required", and the field passes exactly when it has at least five characters once trimmed |
| Contact.LiveAgreesWithSubmit | app.js:344-373 | live and submit validation give the same verdict on every non-blank field |
| Contact.SubmitGate | app.js:360-387 | the request is built only when both fields pass, from the trimmed values; its e-mail matches the pattern and its message has at least five characters |
| Contact.MessageExamples | app.js:371-373 | `abcd` fails, `abcde` passes, surrounding spaces do not count |

## Left out

- Rendering and event wiring are not modelled: the list markup, error styling, the theme toggle, the `/` shortcut and the reset button. They are presentation with no state logic.
- Persistence through `localStorage` is not modelled: JSON encoding, the fallback on corrupt data, the seeded example tasks and the reload after reset. These are I/O. A stored timer configuration enters only as the argument of `Pomodoro.Initial`; the invariant is proved for valid ones.
- `uid()` and `Date.now()` become the parameters `id` and `now`. Id freshness is a precondition (`id !in Ids(ts)`) wherever it matters, because the source relies on randomness for it.
- `Number()` coercion is not modelled. Settings fields are `Option<int>`, with `None` for an empty field. Non-numeric text gives `NaN` in the source, which passes through `Math.max`/`Math.min` unclamped. Fractional input stays a float. Neither is an integer, so both are left out.
- Real-time scheduling is not modelled. `setInterval`/`clearInterval` become the explicit step `Pomodoro.Second`. The 250 ms debounce of live validation is dropped: the model validates the current field values. The beep is the predicate `Pomodoro.PhaseEnds`; Web Audio is not modelled.
- The `fetch` call is not modelled: network I/O, the button's disabled/"in progress" state, and the success and failure messages. So is the `createdAt` time stamp the request body carries. Only the validation gate before the request is modelled.
- The edit session's DOM handling is not modelled. That covers which key or blur ends it and the initial value of the edit box. `Todos.Edit` takes the resulting mode and text as inputs. In the page, `finish` can run more than once per session: Enter or Escape re-renders the list, and a browser that fires `blur` when the focused input is removed then runs `finish("save")` as well. So "cancel leaves the list unchanged" is a statement about one call of `Todos.Edit`, not about a whole edit session.
- JavaScript numbers are doubles; the model uses unbounded integers. `String(n)` switches to exponent notation from 10^21 on, while `Format.NatToString`, `Format.IntToString` and `Format.Pad2` are stated for every integer. The timer invariant keeps the clock below 10801 seconds, far from that range.
- String lengths count Unicode scalar values. JavaScript's `length` counts UTF-16 code units, so a character outside the Basic Multilingual Plane counts twice in the message rule of the source but once here.
- Escape.ReplaceAll: the replacement is taken literally. JavaScript's `replaceAll` with a string replacement expands `$$`, `$&`, `` $` `` and `$'`; none of the five entity strings of `escapeHtml` contains `$`, so `EscapeHtml` is exact.
- Format.SplitClock: the contract covers only non-negative counts. For negative counts the JavaScript truncating remainder (`JsRem`) is modelled but no property is stated. The timer invariant keeps the count at 1 or more.
