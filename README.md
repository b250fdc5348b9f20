# Getting Started wizard and tutorial helpers of irmin.org, in Dafny

This project models the logic of the Irmin documentation site.

- **The Getting Started wizard** (`Wizard`, wizard.dfy). It has a fixed table of questions and a fixed table of outcomes. Each outcome has a path of steps. A step is `Specific(q, a)` ("answer `a` to `q`") or `Wildcard(q)` ("any answer to `q`").
  - The widget owns one answer trail. The class `Wizard.Wizard` holds it and updates it in `AnswerClicked`.
  - `Resolve` models `currentQuestionsAndOutcome`. It filters the outcomes compatible with the trail. With exactly one candidate it returns the trail and that outcome. Otherwise it asks for the question that the candidates name next.
  - The JavaScript throws in two places: the ambiguity string, and the TypeError of an empty `reduce`. Here they are the error values `Ambiguous(asked, other)` and `EmptyReduce`.
  - The doc comment asks that the outcome table be unambiguous. `Unambiguous` states this for any table, and `ShippedUnambiguous` proves it for the shipped one. The model **proves** that a table never throws the ambiguity error, on any trail, **if and only if** it is `Unambiguous`.
  - The model also proves that, with the shipped table, every trail the user can reach by clicking the rendered buttons resolves without error. Every entry it displays then names a defined question, so the `Question` component's lookup `questions[name]` finds it.
- **The tutorial template** (`Tutorial`, tutorial.dfy). `unwrap` lifts a registered component out of a wrapping `<p>` at the top level of the page's syntax tree. The module also has the projection of GraphQL edges to `{link, title}` pages.
- **The tutorial footer** (`TutorialFooter`, footer.dfy). It looks up the current page with `findIndex` and reads the previous and next neighbours. A read outside the array yields no link.
- `Options` (options.dfy) holds the `Option` and `Result` types the modules share.

Behaviour that follows the code rather than a reading of the wizard as "resolve at the end of a path":
- The wizard resolves as soon as exactly one candidate remains (`FsResolvesBeforeServer`). After git = No, storage = On the filesystem and large = No, the outcome is already `fs`. The trailing `server` wildcard is never asked with the shipped table.
- Answering at any position at or past the end of the trail appends (`AnswerBeyondAppends`). Nothing is rejected as out of sequence.
- A negative position follows `Array.prototype.slice(0, i)`: it counts from the end (`SliceEnd`).
- A candidate whose path has no step at the next position contributes `undefined` (`None`) to the `reduce`. So two candidates that both end there display a pending entry with no question. One that ends there next to one that goes on triggers the ambiguity error.

## Model

| member | source | states |
|---|---|---|
| `Wizard.ShippedCatalogueWellFormed` | src/components/widgets/wizard.js:8-40 | Outcome ids are distinct. Every step names a defined question. Every `[q, a]` step's `a` is a valid index into `q`'s answers. |
| `Wizard.AnswerButtons` | src/components/widgets/wizard.js:43-51 | A rendered question offers exactly the calls `onAnswer(name, questionIndex, i)` with `i` below its answer count. There is one button per answer, and button `i` makes the call with answer `i`. |
| `Wizard.SliceEnd` | src/components/widgets/wizard.js:90 | The end index `answers.slice(0, i)` uses never exceeds the trail's length. A negative `i` counts from the end. |
| `Wizard.AfterAnswer` | src/components/widgets/wizard.js:84-92 | The new trail has length min(i, n) + 1, where n is the old trail's length, for `i >= 0` (slice semantics for negative `i`). It keeps the old trail up to its last entry, and its last entry is `(q, ai)`. |
| `Wizard.ReanswerTruncates` | src/components/widgets/wizard.js:89-90 | With `i` below the trail's length the trail becomes `answers[..i] + [(q, ai)]`: the prefix is kept and everything from `i` on is dropped. |
| `Wizard.AnswerBeyondAppends` | src/components/widgets/wizard.js:87-88 | With `i` at or past the trail's length, however large, the trail becomes `answers + [(q, ai)]`. |
| `Wizard.Wizard.constructor` | src/components/widgets/wizard.js:73-76 | The widget starts with the empty trail. |
| `Wizard.Wizard.AnswerClicked` | src/components/widgets/wizard.js:84-92 | Replaces the owned trail by `AfterAnswer` of the old one: truncate-and-replace inside the trail, append at or past its end. |
| `Wizard.AllowsFrom` | src/components/widgets/wizard.js:102-111 | The `every` over the trail holds iff the path allows the recorded answer at each position: an equal `[q, a]` pair, or a wildcard for the same question. |
| `Wizard.ShortPathIncompatible` | src/components/widgets/wizard.js:104-110 | A path shorter than the trail is never compatible, because the missing step never equals a question id. |
| `Wizard.Candidates` | src/components/widgets/wizard.js:100-112 | An outcome is a candidate iff it is in the table and compatible with the trail at every answered position. The list keeps the table's order (it is a subsequence of the table). It is empty iff no outcome is compatible. |
| `Wizard.AgreeFrom` | src/components/widgets/wizard.js:129-132 | The `reduce` callback succeeds iff every element equals the accumulator. Otherwise it throws with the accumulator and the first element that differs from it. |
| `Wizard.Agree` | src/components/widgets/wizard.js:129-132 | `reduce` without an initial value throws on an empty array. Otherwise it succeeds with the first element iff all elements equal it, and fails with the ambiguity error naming that first element. |
| `Wizard.NextQuestions` | src/components/widgets/wizard.js:122-128 | One entry per candidate, in order: the question named by that candidate's step at the trail's length, with the wildcard unwrapped, or `undefined` when its path has no step there. |
| `Wizard.WizardError.Message` | src/components/widgets/wizard.js:131 | The ambiguity message opens with the fixed text, then names the question the first candidate would ask, then `" or "`, then the other one, and ends with a question mark. The empty-`reduce` error has its own fixed text. |
| `Wizard.Shown` | src/components/widgets/wizard.js:116 | The recorded answers as displayed entries: as many as the trail, entry k being the trail's answer k. The same list starts the display at src/components/widgets/wizard.js:135. |
| `Wizard.Resolve` | src/components/widgets/wizard.js:98-138 | The displayed list starts with the trail. It is as long as the trail when an outcome is reached, and that outcome is compatible. Otherwise it is one longer, and its last entry is the next question of a compatible outcome. |
| `Wizard.UniqueCandidate` | src/components/widgets/wizard.js:100-112 | With distinct ids and exactly one compatible outcome, the candidate list is exactly that outcome. |
| `Wizard.ResolvesWhenUnique` | src/components/widgets/wizard.js:114-119 | With exactly one compatible outcome the result is the trail itself with that outcome's id, even if its path has steps left. |
| `Wizard.AsksNextWhenAgreed` | src/components/widgets/wizard.js:122-137 | With two or more candidates that name the same next question, the result is the trail plus that question, unanswered, and no outcome. |
| `Wizard.AmbiguousWhenDisagree` | src/components/widgets/wizard.js:122-132 | Two candidates that name different next questions make the resolver throw the ambiguity error. |
| `Wizard.NoCandidateFails` | src/components/widgets/wizard.js:122-132 | With no compatible outcome the resolver fails with the empty-`reduce` error rather than returning a result. |
| `Wizard.UnambiguousNeverAmbiguous` | src/components/widgets/wizard.js:122-132 | An `Unambiguous` table never throws the ambiguity error, whatever the trail. |
| `Wizard.AmbiguousTableThrows` | src/components/widgets/wizard.js:31-32 | Conversely, a table that is not `Unambiguous` has a trail on which the resolver throws the ambiguity error. |
| `Wizard.CandidateResolves` | src/components/widgets/wizard.js:114-137 | On an unambiguous table, a trail that some outcome is compatible with resolves without error. |
| `Wizard.ShippedUnambiguous` | src/components/widgets/wizard.js:31-40 | The shipped outcome table keeps the doc comment's promise: one question to ask next at every step. |
| `Wizard.ShippedNeverAmbiguous` | src/components/widgets/wizard.js:31-32 | With the shipped table no trail at all produces the ambiguity error. |
| `Wizard.ShippedComplete` | src/components/widgets/wizard.js:34-40 | In the shipped table, every valid answer to every question on every path is continued by some outcome. |
| `Wizard.OffersButton` | src/components/widgets/wizard.js:45-51 | A button of the defined question `name` at `position` calls `onAnswer` with that name and position and a valid answer index. |
| `Wizard.Clickable` | src/components/widgets/wizard.js:151-158 | The render maps displayed entry `i` to a `Question` named by it with `questionIndex` `i`, wired to `answerClicked`. A call a rendered button makes names a defined question and a valid answer. Its position is a displayed one, at most the trail's length, and that entry names the question. |
| `Wizard.Replay` | src/components/widgets/wizard.js:84-92 | A series of `answerClicked` calls. The trail grows by at most one entry per call, and after at least one call it ends with the last call's answer. |
| `Wizard.Playable` | src/components/widgets/wizard.js:151-158 | Each call of the series is offered by the page rendered just before it. Then every call answers a defined question with a valid answer. |
| `Wizard.ClickKeepsCandidate` | src/components/widgets/wizard.js:47-51 | On a complete table, clicking a rendered answer button keeps at least one outcome compatible with the new trail. |
| `Wizard.PlayKeepsCandidate` | src/components/widgets/wizard.js:84-92 | Along any series of clicks on rendered buttons, some outcome stays compatible. |
| `Wizard.PlayResolves` | src/components/widgets/wizard.js:98-137 | On an unambiguous, complete table, every trail reached from the empty one by clicking rendered buttons resolves without error. |
| `Wizard.ShippedPlayResolves` | src/components/widgets/wizard.js:31-40 | With the shipped tables, whatever the user clicks on the displayed buttons, `currentQuestionsAndOutcome` never throws. Every entry it displays names a defined question. |
| `Wizard.UniqueOrRival` | src/components/widgets/wizard.js:114-119 | For a compatible outcome `w`, either another outcome is compatible too, or the resolver returns the trail with `w`'s id. |
| `Wizard.ShippedPathsDiverge` | src/components/widgets/wizard.js:34-40 | Any two distinct shipped paths part ways at a position where both still have a step. |
| `Wizard.ShippedPendingHasStep` | src/components/widgets/wizard.js:122-137 | When the shipped table resolves without an outcome, every compatible outcome has a step at the pending position, so the pending question is never `undefined`. |
| `Wizard.AnsweredNamed` | src/components/widgets/wizard.js:102-111 | On a table whose steps name defined questions, every recorded answer allowed by a path names a defined question. |
| `Wizard.EntriesNamed` | src/components/widgets/wizard.js:43-45 | On such a table, if every compatible path has a step at the pending position, every displayed entry names a defined question. |
| `Wizard.ShippedEntriesNamed` | src/components/widgets/wizard.js:43-45 | With the shipped table, whatever the trail, a successful resolution displays only entries that name defined questions. |
| `Wizard.EmptyTrailAsksGit` | src/components/widgets/wizard.js:122-137 | The empty trail displays exactly the pending question `git` and no outcome. |
| `Wizard.GitNoAsksStorage` | src/components/widgets/wizard.js:122-137 | After git = No the wizard displays the trail plus the pending question `storage`. |
| `Wizard.FilesystemAsksLarge` | src/components/widgets/wizard.js:122-137 | After git = No and storage = On the filesystem it displays the trail plus the pending question `large`. |
| `Wizard.Wizard.CurrentQuestionsAndOutcome` | src/components/widgets/wizard.js:98-138 | On the widget's own trail: the displayed list starts with the trail, the ambiguity error is never thrown, and every displayed entry names a defined question. |
| `Wizard.FsResolvesBeforeServer` | src/components/widgets/wizard.js:114-119 | After git = No, storage = On the filesystem and large = No, the outcome is `fs` and only the trail is displayed. |
| `Tutorial.UnwrapChild` | src/templates/tutorial.js:27-33 | A child is replaced iff it is a `p` element with exactly one child that is an element whose tag the registry accepts. It is then replaced by that sole child. |
| `Tutorial.UnwrapBy` | src/templates/tutorial.js:22-39 | A non-root tree is returned unchanged. A root keeps its type, tag and every other field, and keeps the same number of children in the same order. Each child is lifted exactly when it wraps a component. |
| `Tutorial.MapUnwrap` | src/templates/tutorial.js:26-34 | The mapped children have the same count and order, and child k is the unwrapping of the original child k. |
| `Tutorial.UnwrapOneLevel` | src/templates/tutorial.js:26-34 | Whatever the registry test, each child of the result is the original child, or its sole child, with the whole subtree untouched. |
| `Tutorial.UnwrapAsWritten` | src/templates/tutorial.js:22-39 | As written: a non-root tree is unchanged. A root child changes iff it is a `p` wrapping a single element whose tag is an own key of the registry or a key inherited from `Object.prototype`. It then becomes that element. |
| `Tutorial.Unwrap` | src/templates/tutorial.js:22-39 | As intended: a non-root tree is unchanged. A root child changes iff it is a `p` wrapping a single element whose tag is an own key of the registry. It then becomes that element. |
| `Tutorial.UnwrapEmptyRegistryIdentity` | src/templates/tutorial.js:13 | With the template's empty registry, `unwrap` (own keys only) returns the tree unchanged. |
| `Tutorial.UnwrapAsWrittenNotIdentity` | src/templates/tutorial.js:31 | As written, the empty registry still lifts a `constructor` element out of its paragraph. |
| `Tutorial.Pages` | src/templates/tutorial.js:45-48 | One page per edge, in order. Page k's link and title are edge k's front-matter path and title. |
| `TutorialFooter.FindIndex` | src/components/tutorial/tutorialFooter.js:7 | Returns the least index whose link equals the current link, or -1 iff there is none. |
| `TutorialFooter.At` | src/components/tutorial/tutorialFooter.js:8-9 | A page is returned iff the index is inside the array, negative indices excluded, and it is the page at that index. |
| `TutorialFooter.Footer` | src/components/tutorial/tutorialFooter.js:7-9 | Say the current link is first found at k. Then `prev` is page k-1 iff k >= 1 (none for the first page), and `next` is page k+1 iff k+1 is below the page count (none for the last page). If it is not found, there is no `prev`, and `next` is the first page if there is one. Every link returned is one of the pages. |

## Findings

| source | as written | input that shows it | evidently intended | confidence | as-written member | corrected member |
|---|---|---|---|---|---|---|
| src/templates/tutorial.js:31 | `c.children[0].tagName in components` tests an object literal. JavaScript's `in` also finds keys inherited from `Object.prototype`, so an element named `constructor` (or `toString`, `valueOf`, ...) counts as a registered component even though the registry `{}` is empty. | A root whose only child is `<p>` holding a single element with tag name `constructor`. `unwrap` lifts that element out of the paragraph. | Only components the registry itself defines are lifted, so the empty registry changes nothing. | The JavaScript semantics are certain. Whether any tutorial page has such a tag is doubtful. Not executed. | `Tutorial.UnwrapAsWrittenNotIdentity` | `Tutorial.UnwrapEmptyRegistryIdentity` |

## Left out

- Rendering is left out: JSX, `classnames`, CSS, the button highlighting and the "reached an outcome" messages. They are display only. The one piece of the wizard's `render` that decides behaviour is modelled: which buttons are shown and which `answerClicked` call each makes (`Clickable`, `AnswerButtons`).
- React's `setState` batching and asynchrony are left out. `AnswerClicked` updates the owned trail synchronously.
- GraphQL queries and Gatsby page creation are left out. They are build-time data fetching. The edges are a parameter of `Pages`.
- `rehype-react` compilation, Markdown rendering and Prism highlighting are left out. They are library calls. `unwrap` stops at the tree it hands over.
- The static pages, layout, header, SEO and feature components, the sidebar's numbering and active class, and the Gatsby configuration files are not part of this model. They have no logic beyond display.
- Answer indices are natural numbers, because the only caller passes a button's index. The JavaScript would accept any value.
- `AnswerButtons` and `Clickable`: rendering a question whose name is `undefined` or not in the table throws while destructuring `questions[name]`. The model treats such an entry as offering no buttons. `ShippedEntriesNamed` proves that the shipped table never displays such an entry.
- The text of the empty-`reduce` TypeError depends on the JavaScript engine. The model uses one such text in `WizardError.Message`.
- Every syntax-tree node carries a list of children, empty for text nodes. The JavaScript would throw on a root or a `<p>` element without a `children` array, which the Markdown pipeline never produces.
- `Tutorial.Pages` and `TutorialFooter.Footer` take the page list as given. The order comes from the GraphQL sort. A page object is always truthy, so `pages[k] ? pages[k] : null` is a bounds test.
- Calling `currentQuestionsAndOutcome` twice without an answer in between returns the same result. That holds by construction, since `Resolve` is a function of the table and the trail.
