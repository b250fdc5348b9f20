/** The Getting Started wizard: a fixed catalogue of questions and outcomes, the
    answer trail the widget owns, and the resolver that turns the trail into the
    list of questions to display and, once it is unique, the outcome reached. */
module Wizard {

  import opened Options

  type QuestionId = string

  /** A question: its prompt and its answer labels, referred to by index. */
  datatype Question = Question(title: string, answers: seq<string>)

  /** A step of an outcome's path: `[q, a]` (answer `a` to `q`) or the bare wildcard `q`. */
  datatype Step = Specific(question: QuestionId, answer: nat) | Wildcard(question: QuestionId)

  /** An outcome: its key in the outcome table and the ordered path leading to it. */
  datatype Outcome = Outcome(id: string, path: seq<Step>)

  /** One recorded answer `[q, ai]` of the trail. */
  datatype Choice = Choice(question: QuestionId, answer: nat)

  type Trail = seq<Choice>

  /** An entry of the displayed list: a recorded answer, or the next question
      `[next, null]`, where `next` is `undefined` (None) when a candidate's path
      has no step at that position. */
  datatype Entry = Answered(choice: Choice) | Pending(next: Option<QuestionId>)
  {
    function Name(): (n: Option<QuestionId>)
    {
      match this
      case Answered(c) => Some(c.question)
      case Pending(n) => n
    }
  }

  /** The value `{ questions, outcome }` handed to the rendering code. */
  datatype View = View(questions: seq<Entry>, outcome: Option<string>)

  /** What the resolver throws: the ambiguity string, or the TypeError of
      `reduce` on an empty array with no initial value. */
  datatype WizardError = Ambiguous(asked: Option<QuestionId>, other: Option<QuestionId>) | EmptyReduce
  {
    /** The text of the thrown string: for ambiguity, the fixed opening, then the
        question the first candidate would ask, then the other one and a question mark. */
    function Message(): (m: string)
      ensures this.Ambiguous? ==>
                |m| == |AmbiguityOpening| + |Show(asked)| + |" or "| + |Show(other)| + 1 &&
                m[..|AmbiguityOpening|] == AmbiguityOpening &&
                m[|AmbiguityOpening|..|AmbiguityOpening| + |Show(asked)|] == Show(asked) &&
                m[|AmbiguityOpening| + |Show(asked)|..|m| - 1 - |Show(other)|] == " or " &&
                m[|m| - 1 - |Show(other)|..|m| - 1] == Show(other) &&
                m[|m| - 1] == '?'
      ensures this.EmptyReduce? ==> m == "Reduce of empty array with no initial value"
    {
      match this
      case Ambiguous(a, b) => AmbiguityOpening + Show(a) + " or " + Show(b) + "?"
      case EmptyReduce => "Reduce of empty array with no initial value"
    }
  }

  const AmbiguityOpening: string := "Outcomes are ambiguous, should I ask "

  /** How a template literal renders a question id that may be `undefined`. */
  function Show(q: Option<QuestionId>): (s: string)
  {
    match q
    case Some(s) => s
    case None => "undefined"
  }

  // ---------------------------------------------------------------------------
  // The shipped catalogue.

  const Questions: map<QuestionId, Question> := map[
    "git" := Question("Do you need to be compatible with Git?", ["Yes", "No"]),
    "storage" := Question("Where do you want to store data?", ["In memory", "On the filesystem"]),
    "large" := Question("Do you plan on storing a really large amount of data?", ["Yes", "No"]),
    "server" := Question("How will you interact with Irmin?",
                         ["Using the OCaml API", "Using GraphQL", "Using a REST API"])
  ]

  /** The outcome table, in the order `Object.keys` lists it. */
  const Outcomes: seq<Outcome> := [
    Outcome("git-mem", [Specific("git", 0), Specific("storage", 0), Wildcard("server")]),
    Outcome("git-fs", [Specific("git", 0), Specific("storage", 1), Wildcard("server")]),
    Outcome("mem", [Specific("git", 1), Specific("storage", 0), Wildcard("server")]),
    Outcome("pack", [Specific("git", 1), Specific("storage", 1), Specific("large", 0), Wildcard("server")]),
    Outcome("fs", [Specific("git", 1), Specific("storage", 1), Specific("large", 1), Wildcard("server")])
  ]

  /** Outcome ids are the keys of an object, hence pairwise distinct. */
  predicate DistinctIds(outcomes: seq<Outcome>)
  {
    forall i, j :: 0 <= i < j < |outcomes| ==> outcomes[i].id != outcomes[j].id
  }

  /** Every `[q, a]` step names a defined question and a valid answer index,
      and every wildcard names a defined question. */
  predicate StepsDefined(questions: map<QuestionId, Question>, outcomes: seq<Outcome>)
  {
    forall o, k :: o in outcomes && 0 <= k < |o.path| ==>
      o.path[k].question in questions &&
      (o.path[k].Specific? ==> o.path[k].answer < |questions[o.path[k].question].answers|)
  }

  lemma ShippedCatalogueWellFormed()
    ensures DistinctIds(Outcomes)
    ensures StepsDefined(Questions, Outcomes)
  {
    forall o, k | o in Outcomes && 0 <= k < |o.path|
      ensures o.path[k].question in Questions
      ensures o.path[k].Specific? ==> o.path[k].answer < |Questions[o.path[k].question].answers|
    {
      assert o == Outcomes[0] || o == Outcomes[1] || o == Outcomes[2] || o == Outcomes[3] || o == Outcomes[4];
    }
  }

  // ---------------------------------------------------------------------------
  // answerClicked: the trail update.

  function Min(a: int, b: int): (m: int) { if a <= b then a else b }
  function Max(a: int, b: int): (m: int) { if a <= b then b else a }

  /** The end index that `answers.slice(0, i)` uses: a negative `i` counts from the end. */
  function SliceEnd(i: int, n: nat): (e: nat)
    ensures e <= n
  {
    if i < 0 then Max(n + i, 0) else Min(i, n)
  }

  /** The trail after answering `q` with `ai` at position `i`. */
  function AfterAnswer(answers: Trail, q: QuestionId, i: int, ai: nat): (r: Trail)
    ensures 0 <= i ==> |r| == Min(i, |answers|) + 1
    ensures i < 0 ==> |r| == Max(|answers| + i, 0) + 1
    ensures r[..|r| - 1] == answers[..|r| - 1]
    ensures r[|r| - 1] == Choice(q, ai)
  {
    if i >= |answers| then answers + [Choice(q, ai)]
    else answers[..SliceEnd(i, |answers|)] + [Choice(q, ai)]
  }

  lemma {:induction false} ReanswerTruncates(answers: Trail, q: QuestionId, i: nat, ai: nat)
    requires i < |answers|
    ensures AfterAnswer(answers, q, i, ai) == answers[..i] + [Choice(q, ai)]
  {
    var r := AfterAnswer(answers, q, i, ai);
    assert |r| == i + 1;
    assert r[..i] == answers[..i];
    assert r == r[..i] + [r[i]];
  }

  lemma {:induction false} AnswerBeyondAppends(answers: Trail, q: QuestionId, i: int, ai: nat)
    requires i >= |answers|
    ensures AfterAnswer(answers, q, i, ai) == answers + [Choice(q, ai)]
  {
    var r := AfterAnswer(answers, q, i, ai);
    assert |r| == |answers| + 1;
    assert r[..|answers|] == answers;
    assert r == r[..|answers|] + [r[|answers|]];
  }

  // ---------------------------------------------------------------------------
  // currentQuestionsAndOutcome: the resolver.

  /** The test of `every` at one position: the step at `index` is `[q, a]` equal to
      the recorded pair, or the wildcard equal to its question; a path with no step
      there (`undefined`) never matches. */
  predicate StepAllows(path: seq<Step>, index: nat, c: Choice)
  {
    index < |path| &&
    match path[index]
    case Specific(q, a) => q == c.question && a == c.answer
    case Wildcard(q) => q == c.question
  }

  /** Specification of compatibility: the path allows the trail at every answered position. */
  predicate Compatible(path: seq<Step>, answers: Trail)
  {
    forall i :: 0 <= i < |answers| ==> StepAllows(path, i, answers[i])
  }

  /** `answers.every(...)` from position `index` on: it holds exactly when the
      path allows every recorded answer from `index` to the end. */
  function AllowsFrom(path: seq<Step>, answers: Trail, index: nat): (b: bool)
    ensures b <==> forall i :: index <= i < |answers| ==> StepAllows(path, i, answers[i])
    decreases |answers| - index
  {
    index >= |answers| || (StepAllows(path, index, answers[index]) && AllowsFrom(path, answers, index + 1))
  }

  /** A path shorter than the trail is never compatible with it. */
  lemma ShortPathIncompatible(path: seq<Step>, answers: Trail)
    requires |path| < |answers|
    ensures !Compatible(path, answers)
  {
    assert !StepAllows(path, |path|, answers[|path|]);
  }

  /** `r` is obtained from `s` by dropping elements, the rest kept in order. */
  predicate Subsequence<T(==)>(r: seq<T>, s: seq<T>)
    decreases |s|
  {
    r == [] ||
    (s != [] && ((r[0] == s[0] && Subsequence(r[1..], s[1..])) || Subsequence(r, s[1..])))
  }

  /** `possibleOutcomes`: the outcomes compatible with the trail, in table order. */
  function Candidates(outcomes: seq<Outcome>, answers: Trail): (r: seq<Outcome>)
    ensures |r| <= |outcomes|
    ensures Subsequence(r, outcomes)
    ensures forall o :: o in r <==> o in outcomes && Compatible(o.path, answers)
    ensures r == [] <==> forall o :: o in outcomes ==> !Compatible(o.path, answers)
  {
    if outcomes == [] then []
    else
      var rest := Candidates(outcomes[1..], answers);
      if AllowsFrom(outcomes[0].path, answers, 0) then
        assert ([outcomes[0]] + rest)[1..] == rest;
        [outcomes[0]] + rest
      else rest
  }

  /** The question named by a path at `index`, with the wildcard unwrapped;
      None when the path is too short (`undefined`). */
  function StepQuestion(path: seq<Step>, index: nat): (r: Option<QuestionId>)
  {
    if index < |path| then Some(path[index].question) else None
  }

  /** The two `map` calls: the question each candidate names at `index`. */
  function NextQuestions(cands: seq<Outcome>, index: nat): (r: seq<Option<QuestionId>>)
    ensures |r| == |cands|
    ensures forall k :: 0 <= k < |cands| ==> r[k] == StepQuestion(cands[k].path, index)
  {
    if cands == [] then [] else [StepQuestion(cands[0].path, index)] + NextQuestions(cands[1..], index)
  }

  /** The `reduce` callback run over `rest` with accumulator `acc`. */
  function AgreeFrom(acc: Option<QuestionId>, rest: seq<Option<QuestionId>>): (r: Result<Option<QuestionId>, WizardError>)
    ensures r.Ok? <==> forall k :: 0 <= k < |rest| ==> rest[k] == acc
    ensures r.Ok? ==> r.value == acc
    ensures r.Err? ==> r.error.Ambiguous? && r.error.asked == acc && r.error.other != acc
    ensures forall k :: 0 <= k < |rest| && rest[k] != acc && (forall j :: 0 <= j < k ==> rest[j] == acc) ==>
              r == Err(Ambiguous(acc, rest[k]))
  {
    if rest == [] then Ok(acc)
    else if acc == rest[0] then AgreeFrom(rest[0], rest[1..])
    else Err(Ambiguous(acc, rest[0]))
  }

  /** `reduce` without an initial value: fails on the empty array, otherwise
      demands that every element equal the first. */
  function Agree(xs: seq<Option<QuestionId>>): (r: Result<Option<QuestionId>, WizardError>)
    ensures xs == [] ==> r == Err(EmptyReduce)
    ensures xs != [] ==> (r.Ok? <==> forall k :: 0 <= k < |xs| ==> xs[k] == xs[0])
    ensures r.Ok? ==> r.value == xs[0]
    ensures r.Err? && xs != [] ==> r.error.Ambiguous? && r.error.asked == xs[0] && r.error.other != xs[0]
  {
    if xs == [] then Err(EmptyReduce)
    else
      var r := AgreeFrom(xs[0], xs[1..]);
      assert r.Ok? ==> forall k :: 0 <= k < |xs| ==> xs[k] == xs[0] by {
        if r.Ok? {
          forall k | 0 <= k < |xs| ensures xs[k] == xs[0] {
            if k > 0 { assert xs[k] == xs[1..][k - 1]; }
          }
        }
      }
      r
  }

  /** The recorded answers as displayed entries. */
  function Shown(answers: Trail): (r: seq<Entry>)
    ensures |r| == |answers|
    ensures forall k :: 0 <= k < |answers| ==> r[k] == Answered(answers[k])
  {
    seq(|answers|, k requires 0 <= k < |answers| => Answered(answers[k]))
  }

  /** `currentQuestionsAndOutcome` over a given outcome table. */
  function Resolve(outcomes: seq<Outcome>, answers: Trail): (r: Result<View, WizardError>)
    ensures r.Ok? ==> |answers| <= |r.value.questions| && r.value.questions[..|answers|] == Shown(answers)
    ensures r.Ok? && r.value.outcome.Some? ==> |r.value.questions| == |answers|
    ensures r.Ok? && r.value.outcome.None? ==> |r.value.questions| == |answers| + 1
    ensures r.Ok? && r.value.outcome.Some? ==>
              exists o :: o in outcomes && o.id == r.value.outcome.value && Compatible(o.path, answers)
    ensures r.Ok? && r.value.outcome.None? ==>
              exists o :: o in outcomes && Compatible(o.path, answers) &&
                          r.value.questions[|answers|] == Pending(StepQuestion(o.path, |answers|))
  {
    var cands := Candidates(outcomes, answers);
    if |cands| == 1 then
      assert cands[0] in cands;
      Ok(View(Shown(answers), Some(cands[0].id)))
    else
      match Agree(NextQuestions(cands, |answers|))
      case Ok(next) =>
        assert cands[0] in cands;
        Ok(View(Shown(answers) + [Pending(next)], None))
      case Err(e) => Err(e)
  }

  lemma {:induction false} UniqueCandidate(outcomes: seq<Outcome>, answers: Trail, o: Outcome)
    requires DistinctIds(outcomes)
    requires o in outcomes && Compatible(o.path, answers)
    requires forall o' :: o' in outcomes && Compatible(o'.path, answers) ==> o' == o
    ensures Candidates(outcomes, answers) == [o]
  {
    var rest := outcomes[1..];
    assert DistinctIds(rest) by {
      forall i, j | 0 <= i < j < |rest| ensures rest[i].id != rest[j].id {
        assert rest[i] == outcomes[i + 1] && rest[j] == outcomes[j + 1];
      }
    }
    if outcomes[0] == o {
      assert o !in rest by {
        forall j | 0 <= j < |rest| ensures rest[j] != o {
          assert outcomes[j + 1].id != outcomes[0].id;
        }
      }
      assert forall x :: x in rest ==> !Compatible(x.path, answers);
      assert Candidates(outcomes, answers) == [o] + Candidates(rest, answers);
    } else {
      assert o in rest;
      UniqueCandidate(rest, answers, o);
    }
  }

  /** With exactly one compatible outcome the trail is returned as it is, along
      with that outcome, whether or not its path has steps left. */
  lemma ResolvesWhenUnique(outcomes: seq<Outcome>, answers: Trail, o: Outcome)
    requires DistinctIds(outcomes)
    requires o in outcomes && Compatible(o.path, answers)
    requires forall o' :: o' in outcomes && Compatible(o'.path, answers) ==> o' == o
    ensures Resolve(outcomes, answers) == Ok(View(Shown(answers), Some(o.id)))
  {
    UniqueCandidate(outcomes, answers, o);
  }

  /** Two distinct elements of a sequence make it at least two long. */
  lemma TwoMembers<T>(s: seq<T>, a: T, b: T)
    requires a in s && b in s && a != b
    ensures |s| >= 2
  {
  }

  /** With two or more candidates that all name the same next question (or all
      have no step there), that question is appended, unanswered, and no outcome
      is reached. */
  lemma AsksNextWhenAgreed(outcomes: seq<Outcome>, answers: Trail, o1: Outcome, o2: Outcome, next: Option<QuestionId>)
    requires o1 in outcomes && o2 in outcomes && o1 != o2
    requires Compatible(o1.path, answers) && Compatible(o2.path, answers)
    requires forall o :: o in outcomes && Compatible(o.path, answers) ==> StepQuestion(o.path, |answers|) == next
    ensures Resolve(outcomes, answers) == Ok(View(Shown(answers) + [Pending(next)], None))
  {
    var cands := Candidates(outcomes, answers);
    TwoMembers(cands, o1, o2);
    var xs := NextQuestions(cands, |answers|);
    forall k | 0 <= k < |xs| ensures xs[k] == next {
      assert cands[k] in cands;
    }
  }

  /** Two candidates naming different next questions make the resolver fail
      with the ambiguity error. */
  lemma AmbiguousWhenDisagree(outcomes: seq<Outcome>, answers: Trail, o1: Outcome, o2: Outcome)
    requires o1 in outcomes && o2 in outcomes
    requires Compatible(o1.path, answers) && Compatible(o2.path, answers)
    requires StepQuestion(o1.path, |answers|) != StepQuestion(o2.path, |answers|)
    ensures Resolve(outcomes, answers).Err?
    ensures Resolve(outcomes, answers).error.Ambiguous?
  {
    var cands := Candidates(outcomes, answers);
    TwoMembers(cands, o1, o2);
    var xs := NextQuestions(cands, |answers|);
    var i1 :| 0 <= i1 < |cands| && cands[i1] == o1;
    var i2 :| 0 <= i2 < |cands| && cands[i2] == o2;
    assert xs[i1] != xs[i2];
    assert xs[i1] != xs[0] || xs[i2] != xs[0];
    var e := Agree(xs);
    assert e.Err? && e.error.Ambiguous?;
    assert |cands| != 1;
    assert Resolve(outcomes, answers) == Err(e.error);
  }

  /** With no compatible outcome, `reduce` fails on the empty array. */
  lemma NoCandidateFails(outcomes: seq<Outcome>, answers: Trail)
    requires forall o :: o in outcomes ==> !Compatible(o.path, answers)
    ensures Resolve(outcomes, answers) == Err(EmptyReduce)
  {
  }

  // ---------------------------------------------------------------------------
  // The shipped catalogue, resolved.

  lemma EmptyTrailAsksGit()
    ensures Resolve(Outcomes, []) == Ok(View([Pending(Some("git"))], None))
  {
    AsksNextWhenAgreed(Outcomes, [], Outcomes[0], Outcomes[1], Some("git"));
  }

  // ---------------------------------------------------------------------------
  // Unambiguity: the promise of the outcome table's doc comment.

  /** Some answer at position `k` is allowed by both paths. */
  predicate Overlap(p1: seq<Step>, p2: seq<Step>, k: nat)
  {
    k < |p1| && k < |p2| && p1[k].question == p2[k].question &&
    (p1[k].Specific? && p2[k].Specific? ==> p1[k].answer == p2[k].answer)
  }

  /** Whenever some trail of length `n` is allowed by both paths, they name the
      same question at `n`. */
  ghost predicate PairUnambiguous(p1: seq<Step>, p2: seq<Step>)
  {
    forall n: nat :: (forall k :: 0 <= k < n ==> Overlap(p1, p2, k)) ==>
      StepQuestion(p1, n) == StepQuestion(p2, n)
  }

  /** There is only one question to ask next at every possible step. */
  ghost predicate Unambiguous(outcomes: seq<Outcome>)
  {
    forall i, j :: 0 <= i < |outcomes| && 0 <= j < |outcomes| ==>
      PairUnambiguous(outcomes[i].path, outcomes[j].path)
  }

  lemma CompatibleOverlap(p1: seq<Step>, p2: seq<Step>, answers: Trail)
    requires Compatible(p1, answers) && Compatible(p2, answers)
    ensures forall k :: 0 <= k < |answers| ==> Overlap(p1, p2, k)
  {
    forall k | 0 <= k < |answers| ensures Overlap(p1, p2, k) {
      assert StepAllows(p1, k, answers[k]) && StepAllows(p2, k, answers[k]);
    }
  }

  /** An unambiguous table never makes the resolver throw the ambiguity error, whatever the trail. */
  lemma UnambiguousNeverAmbiguous(outcomes: seq<Outcome>, answers: Trail)
    requires Unambiguous(outcomes)
    ensures !(Resolve(outcomes, answers).Err? && Resolve(outcomes, answers).error.Ambiguous?)
  {
    var cands := Candidates(outcomes, answers);
    if |cands| > 1 {
      var xs := NextQuestions(cands, |answers|);
      assert cands[0] in cands;
      var j :| 0 <= j < |outcomes| && outcomes[j] == cands[0];
      forall k | 0 <= k < |xs| ensures xs[k] == xs[0] {
        assert cands[k] in cands;
        var i :| 0 <= i < |outcomes| && outcomes[i] == cands[k];
        CompatibleOverlap(cands[k].path, cands[0].path, answers);
        assert PairUnambiguous(outcomes[i].path, outcomes[j].path);
      }
    }
  }

  /** A trail allowed by two paths that overlap at every position before `n`. */
  function SharedTrail(p1: seq<Step>, p2: seq<Step>, n: nat): (t: Trail)
    requires forall k :: 0 <= k < n ==> Overlap(p1, p2, k)
    ensures |t| == n && Compatible(p1, t) && Compatible(p2, t)
  {
    var t := seq(n, k requires 0 <= k < n => SharedChoice(p1, p2, k));
    assert forall k :: 0 <= k < n ==> StepAllows(p1, k, t[k]) && StepAllows(p2, k, t[k]);
    t
  }

  /** An answer allowed at `k` by both paths, when they overlap there. */
  function SharedChoice(p1: seq<Step>, p2: seq<Step>, k: nat): (c: Choice)
    ensures Overlap(p1, p2, k) ==> StepAllows(p1, k, c) && StepAllows(p2, k, c)
  {
    if k < |p1| && k < |p2| then
      Choice(p1[k].question, if p1[k].Specific? then p1[k].answer else if p2[k].Specific? then p2[k].answer else 0)
    else Choice("", 0)
  }

  /** Conversely, an ambiguous table has a trail on which the resolver throws. */
  lemma AmbiguousTableThrows(outcomes: seq<Outcome>)
    requires !Unambiguous(outcomes)
    ensures exists answers :: Resolve(outcomes, answers).Err? && Resolve(outcomes, answers).error.Ambiguous?
  {
    var i, j :| 0 <= i < |outcomes| && 0 <= j < |outcomes| && !PairUnambiguous(outcomes[i].path, outcomes[j].path);
    var n: nat :| (forall k :: 0 <= k < n ==> Overlap(outcomes[i].path, outcomes[j].path, k)) &&
                  StepQuestion(outcomes[i].path, n) != StepQuestion(outcomes[j].path, n);
    var t := SharedTrail(outcomes[i].path, outcomes[j].path, n);
    AmbiguousWhenDisagree(outcomes, t, outcomes[i], outcomes[j]);
  }

  /** Two paths that differ at `d` and name the same questions up to `d` are unambiguous. */
  lemma DivergeAt(p1: seq<Step>, p2: seq<Step>, d: nat)
    requires !Overlap(p1, p2, d)
    requires forall n :: 0 <= n <= d ==> StepQuestion(p1, n) == StepQuestion(p2, n)
    ensures PairUnambiguous(p1, p2)
  {
    forall n: nat | forall k :: 0 <= k < n ==> Overlap(p1, p2, k)
      ensures StepQuestion(p1, n) == StepQuestion(p2, n)
    {
      assert n <= d;
    }
  }

  lemma ShippedUnambiguous()
    ensures Unambiguous(Outcomes)
  {
    var o := Outcomes;
    forall i, j | 0 <= i < |o| && 0 <= j < |o| ensures PairUnambiguous(o[i].path, o[j].path) {
      if i == j {
      } else if (i < 2) != (j < 2) {
        DivergeAt(o[i].path, o[j].path, 0);
      } else if (i == 3 && j == 4) || (i == 4 && j == 3) {
        DivergeAt(o[i].path, o[j].path, 2);
      } else {
        DivergeAt(o[i].path, o[j].path, 1);
      }
    }
  }

  // ---------------------------------------------------------------------------
  // What the Question component lets the user click.

  /** A call `onAnswer(name, questionIndex, i)`. */
  datatype Click = Click(question: QuestionId, position: int, answer: nat)

  /** The answer buttons of one displayed question, one per answer label, in order. */
  function AnswerButtons(question: Question, name: QuestionId, questionIndex: nat): (r: seq<Click>)
    ensures |r| == |question.answers|
    ensures forall i :: 0 <= i < |r| ==> r[i] == Click(name, questionIndex, i)
    ensures forall c :: c in r <==> c.question == name && c.position == questionIndex && c.answer < |question.answers|
  {
    var r := seq(|question.answers|, i requires 0 <= i < |question.answers| => Click(name, questionIndex, i));
    assert forall c: Click :: c.question == name && c.position == questionIndex && c.answer < |question.answers| ==>
             r[c.answer] == c;
    r
  }

  /** `a` is a valid answer index of the defined question `q`. */
  predicate ValidAnswer(questions: map<QuestionId, Question>, q: QuestionId, a: nat)
  {
    q in questions && a < |questions[q].answers|
  }

  /** `c` is the call made by one of the buttons rendered for the trail `answers`:
      the render maps each displayed entry `i` to a `Question` named by it, with
      `questionIndex` `i`, whose buttons report back to `answerClicked`. Such a call
      names a defined question, a valid answer, and a displayed position, which is
      at most the trail's length. */
  predicate Clickable(questions: map<QuestionId, Question>, outcomes: seq<Outcome>, answers: Trail, c: Click)
    ensures Clickable(questions, outcomes, answers, c) ==>
              ValidAnswer(questions, c.question, c.answer) && 0 <= c.position <= |answers| &&
              Resolve(outcomes, answers).Ok? && c.position < |Resolve(outcomes, answers).value.questions| &&
              Resolve(outcomes, answers).value.questions[c.position].Name() == Some(c.question)
  {
    var r := Resolve(outcomes, answers);
    r.Ok? && 0 <= c.position < |r.value.questions| &&
    r.value.questions[c.position].Name().Some? &&
    OffersButton(questions, r.value.questions[c.position].Name().value, c.position, c)
  }

  /** `c` is the call of one of the answer buttons of the defined question `name`
      displayed at `position`. */
  predicate OffersButton(questions: map<QuestionId, Question>, name: QuestionId, position: nat, c: Click)
    ensures OffersButton(questions, name, position, c) ==>
              c.question == name && c.position == position && ValidAnswer(questions, name, c.answer)
  {
    name in questions && c in AnswerButtons(questions[name], name, position)
  }

  /** The trail after a series of `answerClicked` calls: it grows by at most one
      entry per click, and after at least one click it ends with the last click's answer. */
  function Replay(answers: Trail, clicks: seq<Click>): (r: Trail)
    ensures |r| <= |answers| + |clicks|
    ensures clicks != [] ==> |r| >= 1 && r[|r| - 1] == Choice(clicks[|clicks| - 1].question, clicks[|clicks| - 1].answer)
    decreases |clicks|
  {
    if clicks == [] then answers
    else Replay(AfterAnswer(answers, clicks[0].question, clicks[0].position, clicks[0].answer), clicks[1..])
  }

  /** Every click of the series is offered by the page rendered just before it;
      then every click answers a defined question with a valid answer. */
  predicate Playable(questions: map<QuestionId, Question>, outcomes: seq<Outcome>, answers: Trail, clicks: seq<Click>)
    ensures Playable(questions, outcomes, answers, clicks) ==>
              forall k :: 0 <= k < |clicks| ==> ValidAnswer(questions, clicks[k].question, clicks[k].answer)
    decreases |clicks|
  {
    clicks == [] ||
    (Clickable(questions, outcomes, answers, clicks[0]) &&
     Playable(questions, outcomes, AfterAnswer(answers, clicks[0].question, clicks[0].position, clicks[0].answer), clicks[1..]))
  }

  // ---------------------------------------------------------------------------
  // Completeness: every offered answer leads somewhere.

  /** Step `k` of `p'` allows every answer that step `k` of `p` allows. */
  predicate Subsumes(p': seq<Step>, p: seq<Step>, k: nat)
  {
    k < |p'| && k < |p| && p'[k].question == p[k].question &&
    (p'[k].Specific? ==> p[k].Specific? && p'[k].answer == p[k].answer)
  }

  /** `p'` allows whatever `p` allows before `n`, and answer `a` to `p`'s question at `n`. */
  predicate Continues(p': seq<Step>, p: seq<Step>, n: nat, a: nat)
    requires n < |p|
  {
    (forall k :: 0 <= k < n ==> Subsumes(p', p, k)) && StepAllows(p', n, Choice(p[n].question, a))
  }

  /** Every valid answer to every question on every path is continued by some outcome. */
  ghost predicate Complete(questions: map<QuestionId, Question>, outcomes: seq<Outcome>)
  {
    forall i, n: nat, a: nat ::
      (0 <= i < |outcomes| && n < |outcomes[i].path| && ValidAnswer(questions, outcomes[i].path[n].question, a)) ==>
      exists j :: 0 <= j < |outcomes| && Continues(outcomes[j].path, outcomes[i].path, n, a)
  }

  lemma SubsumedCompatible(p': seq<Step>, p: seq<Step>, answers: Trail, c: Choice)
    requires Compatible(p, answers)
    requires forall k :: 0 <= k < |answers| ==> Subsumes(p', p, k)
    requires StepAllows(p', |answers|, c)
    ensures Compatible(p', answers + [c])
  {
    var t := answers + [c];
    forall k | 0 <= k < |t| ensures StepAllows(p', k, t[k]) {
      if k < |answers| {
        assert StepAllows(p, k, answers[k]) && Subsumes(p', p, k);
      }
    }
  }

  /** One offered click keeps at least one outcome compatible with the trail. */
  lemma ClickKeepsCandidate(questions: map<QuestionId, Question>, outcomes: seq<Outcome>, answers: Trail, c: Click, o: Outcome)
    requires Complete(questions, outcomes)
    requires o in outcomes && Compatible(o.path, answers)
    requires Clickable(questions, outcomes, answers, c)
    ensures exists o' :: o' in outcomes && Compatible(o'.path, AfterAnswer(answers, c.question, c.position, c.answer))
  {
    var v := Resolve(outcomes, answers).value;
    var p: nat := c.position;
    var q, a := c.question, c.answer;
    assert c in AnswerButtons(questions[q], q, p);
    assert ValidAnswer(questions, q, a);
    // `base` is an outcome compatible with the kept prefix whose step at `p` asks `q`.
    var base: Outcome;
    var prefix: Trail;
    if p < |answers| {
      assert v.questions[p] == Shown(answers)[p] == Answered(answers[p]);
      ReanswerTruncates(answers, q, p, a);
      prefix := answers[..p];
      base := o;
      assert StepAllows(o.path, p, answers[p]);
    } else {
      AnswerBeyondAppends(answers, q, p, a);
      prefix := answers;
      var w :| w in outcomes && Compatible(w.path, answers) &&
               v.questions[|answers|] == Pending(StepQuestion(w.path, |answers|));
      base := w;
    }
    assert AfterAnswer(answers, q, p, a) == prefix + [Choice(q, a)];
    assert Compatible(base.path, prefix) && |prefix| == p < |base.path| && base.path[p].question == q;
    var i :| 0 <= i < |outcomes| && outcomes[i] == base;
    var j :| 0 <= j < |outcomes| && Continues(outcomes[j].path, base.path, p, a);
    SubsumedCompatible(outcomes[j].path, base.path, prefix, Choice(q, a));
  }

  /** Along any series of offered clicks some outcome stays compatible. */
  lemma {:induction false} PlayKeepsCandidate(questions: map<QuestionId, Question>, outcomes: seq<Outcome>, answers: Trail, clicks: seq<Click>)
    requires Complete(questions, outcomes)
    requires exists o :: o in outcomes && Compatible(o.path, answers)
    requires Playable(questions, outcomes, answers, clicks)
    ensures exists o :: o in outcomes && Compatible(o.path, Replay(answers, clicks))
    decreases |clicks|
  {
    if clicks != [] {
      var o :| o in outcomes && Compatible(o.path, answers);
      ClickKeepsCandidate(questions, outcomes, answers, clicks[0], o);
      PlayKeepsCandidate(questions, outcomes,
        AfterAnswer(answers, clicks[0].question, clicks[0].position, clicks[0].answer), clicks[1..]);
    }
  }

  /** On an unambiguous, complete table every trail the user can reach by clicking
      the displayed buttons resolves without error. */
  lemma PlayResolves(questions: map<QuestionId, Question>, outcomes: seq<Outcome>, clicks: seq<Click>)
    requires Unambiguous(outcomes) && Complete(questions, outcomes) && outcomes != []
    requires Playable(questions, outcomes, [], clicks)
    ensures Resolve(outcomes, Replay([], clicks)).Ok?
  {
    assert Compatible(outcomes[0].path, []);
    PlayKeepsCandidate(questions, outcomes, [], clicks);
    var t := Replay([], clicks);
    var o :| o in outcomes && Compatible(o.path, t);
    CandidateResolves(outcomes, t, o);
  }

  /** On an unambiguous table a trail with a compatible outcome resolves without error. */
  lemma CandidateResolves(outcomes: seq<Outcome>, answers: Trail, o: Outcome)
    requires Unambiguous(outcomes)
    requires o in outcomes && Compatible(o.path, answers)
    ensures Resolve(outcomes, answers).Ok?
  {
    UnambiguousNeverAmbiguous(outcomes, answers);
    assert o in Candidates(outcomes, answers);
  }

  lemma ShippedComplete()
    ensures Complete(Questions, Outcomes)
  {
    var o := Outcomes;
    forall i, n: nat, a: nat | 0 <= i < |o| && n < |o[i].path| && ValidAnswer(Questions, o[i].path[n].question, a)
      ensures exists j :: 0 <= j < |o| && Continues(o[j].path, o[i].path, n, a)
    {
      // The outcome that takes answer `a` at `n` after following `o[i]` so far.
      var j :=
        if n == 0 then (if a == 0 then 0 else 2)
        else if n == 1 then (if i < 2 then (if a == 0 then 0 else 1) else (if a == 0 then 2 else 3))
        else if n == 2 && i >= 3 then (if a == 0 then 3 else 4)
        else i;
      assert Continues(o[j].path, o[i].path, n, a);
    }
  }

  /** Along any series of clicks on the displayed buttons of the shipped table,
      the resolver never throws, and every entry it displays names a defined
      question, so looking that question up for rendering succeeds as well. */
  lemma ShippedPlayResolves(clicks: seq<Click>)
    requires Playable(Questions, Outcomes, [], clicks)
    ensures Resolve(Outcomes, Replay([], clicks)).Ok?
    ensures forall e :: e in Resolve(Outcomes, Replay([], clicks)).value.questions ==>
              e.Name().Some? && e.Name().value in Questions
  {
    ShippedUnambiguous();
    ShippedComplete();
    PlayResolves(Questions, Outcomes, clicks);
    ShippedEntriesNamed(Replay([], clicks));
  }

  /** Either some other outcome is compatible with the trail as well, or `w` is
      the one reached. */
  lemma UniqueOrRival(outcomes: seq<Outcome>, answers: Trail, w: Outcome)
    requires DistinctIds(outcomes)
    requires w in outcomes && Compatible(w.path, answers)
    ensures (exists o :: o in outcomes && Compatible(o.path, answers) && o != w) ||
            Resolve(outcomes, answers) == Ok(View(Shown(answers), Some(w.id)))
  {
    if forall o :: o in outcomes && Compatible(o.path, answers) ==> o == w {
      ResolvesWhenUnique(outcomes, answers, w);
    }
  }

  /** Any two shipped paths part ways at a position where both still have a step. */
  lemma ShippedPathsDiverge(i: nat, j: nat)
    requires i < |Outcomes| && j < |Outcomes| && i != j
    ensures exists d: nat :: d < |Outcomes[i].path| && d < |Outcomes[j].path| &&
                        !Overlap(Outcomes[i].path, Outcomes[j].path, d)
  {
    var o := Outcomes;
    var d := if (i < 2) != (j < 2) then 0 else if (i == 3 && j == 4) || (i == 4 && j == 3) then 2 else 1;
    assert d < |o[i].path| && d < |o[j].path| && !Overlap(o[i].path, o[j].path, d);
  }

  /** When the shipped table resolves without reaching an outcome, every
      compatible outcome still has a step at the pending position, since another
      compatible outcome exists and the two part ways later. */
  lemma ShippedPendingHasStep(answers: Trail, o: Outcome)
    requires o in Outcomes && Compatible(o.path, answers)
    requires Resolve(Outcomes, answers).Ok? && Resolve(Outcomes, answers).value.outcome.None?
    ensures |answers| < |o.path|
  {
    ShippedCatalogueWellFormed();
    UniqueOrRival(Outcomes, answers, o);
    var o' :| o' in Outcomes && Compatible(o'.path, answers) && o' != o;
    var i :| 0 <= i < |Outcomes| && Outcomes[i] == o;
    var j :| 0 <= j < |Outcomes| && Outcomes[j] == o';
    CompatibleOverlap(o.path, o'.path, answers);
    ShippedPathsDiverge(i, j);
  }

  /** Recorded answers allowed by a path of a well-formed table name defined questions. */
  lemma AnsweredNamed(questions: map<QuestionId, Question>, outcomes: seq<Outcome>, answers: Trail, o: Outcome)
    requires StepsDefined(questions, outcomes)
    requires o in outcomes && Compatible(o.path, answers)
    ensures forall k :: 0 <= k < |answers| ==> answers[k].question in questions
  {
    forall k | 0 <= k < |answers| ensures answers[k].question in questions {
      assert StepAllows(o.path, k, answers[k]);
    }
  }

  /** On a well-formed table whose compatible paths all have a step at the pending
      position, every displayed entry names a defined question. */
  lemma EntriesNamed(questions: map<QuestionId, Question>, outcomes: seq<Outcome>, answers: Trail)
    requires StepsDefined(questions, outcomes)
    requires Resolve(outcomes, answers).Ok?
    requires Resolve(outcomes, answers).value.outcome.None? ==>
               forall o :: o in outcomes && Compatible(o.path, answers) ==> |answers| < |o.path|
    ensures forall e :: e in Resolve(outcomes, answers).value.questions ==>
              e.Name().Some? && e.Name().value in questions
  {
    var r := Resolve(outcomes, answers);
    var qs := r.value.questions;
    var o: Outcome;
    if r.value.outcome.Some? {
      o :| o in outcomes && o.id == r.value.outcome.value && Compatible(o.path, answers);
    } else {
      o :| o in outcomes && Compatible(o.path, answers) &&
           qs[|answers|] == Pending(StepQuestion(o.path, |answers|));
      assert o.path[|answers|].question in questions;
    }
    AnsweredNamed(questions, outcomes, answers, o);
    forall e | e in qs ensures e.Name().Some? && e.Name().value in questions {
      var k :| 0 <= k < |qs| && qs[k] == e;
      if k < |answers| {
        assert qs[k] == qs[..|answers|][k] == Answered(answers[k]);
      }
    }
  }

  /** Whatever the trail, when the shipped table resolves, every displayed entry
      names a defined question: a recorded answer by compatibility, the pending
      question because two distinct candidates still have a step there. */
  lemma ShippedEntriesNamed(answers: Trail)
    ensures var r := Resolve(Outcomes, answers);
            r.Ok? ==> forall e :: e in r.value.questions ==> e.Name().Some? && e.Name().value in Questions
  {
    var r := Resolve(Outcomes, answers);
    if r.Ok? {
      ShippedCatalogueWellFormed();
      if r.value.outcome.None? {
        forall o | o in Outcomes && Compatible(o.path, answers) ensures |answers| < |o.path| {
          ShippedPendingHasStep(answers, o);
        }
      }
      EntriesNamed(Questions, Outcomes, answers);
    }
  }

  /** The shipped table throws the ambiguity error on no trail at all. */
  lemma ShippedNeverAmbiguous(answers: Trail)
    ensures !(Resolve(Outcomes, answers).Err? && Resolve(Outcomes, answers).error.Ambiguous?)
  {
    ShippedUnambiguous();
    UnambiguousNeverAmbiguous(Outcomes, answers);
  }

  /** After git = No, storage = On the filesystem, large = No the outcome is
      already `fs`: the trailing `server` wildcard is never asked. */
  lemma FsResolvesBeforeServer()
    ensures var t := [Choice("git", 1), Choice("storage", 1), Choice("large", 1)];
            Resolve(Outcomes, t) == Ok(View(Shown(t), Some("fs")))
  {
    var t := [Choice("git", 1), Choice("storage", 1), Choice("large", 1)];
    var o := Outcomes;
    assert !StepAllows(o[0].path, 0, t[0]) && !StepAllows(o[1].path, 0, t[0]);
    assert !StepAllows(o[2].path, 1, t[1]) && !StepAllows(o[3].path, 2, t[2]);
    assert Compatible(o[4].path, t);
    forall w | w in o && Compatible(w.path, t) ensures w == o[4] {
      var i :| 0 <= i < |o| && o[i] == w;
      assert i != 0 && i != 1 && i != 2 && i != 3;
    }
    ShippedCatalogueWellFormed();
    ResolvesWhenUnique(o, t, o[4]);
  }

  /** After git = No the wizard asks `storage` next. */
  lemma GitNoAsksStorage()
    ensures var t := [Choice("git", 1)];
            Resolve(Outcomes, t) == Ok(View(Shown(t) + [Pending(Some("storage"))], None))
  {
    var t := [Choice("git", 1)];
    var o := Outcomes;
    assert !StepAllows(o[0].path, 0, t[0]) && !StepAllows(o[1].path, 0, t[0]);
    assert Compatible(o[2].path, t) && Compatible(o[3].path, t);
    AsksNextWhenAgreed(o, t, o[2], o[3], Some("storage"));
  }

  /** After git = No, storage = On the filesystem the wizard asks `large` next. */
  lemma FilesystemAsksLarge()
    ensures var t := [Choice("git", 1), Choice("storage", 1)];
            Resolve(Outcomes, t) == Ok(View(Shown(t) + [Pending(Some("large"))], None))
  {
    var t := [Choice("git", 1), Choice("storage", 1)];
    var o := Outcomes;
    assert !StepAllows(o[0].path, 0, t[0]) && !StepAllows(o[1].path, 0, t[0]);
    assert !StepAllows(o[2].path, 1, t[1]);
    assert Compatible(o[3].path, t) && Compatible(o[4].path, t);
    AsksNextWhenAgreed(o, t, o[3], o[4], Some("large"));
  }

  // ---------------------------------------------------------------------------
  // The widget: it owns the answer trail.

  class Wizard {
    var answers: Trail

    constructor ()
      ensures answers == []
    {
      answers := [];
    }

    /** `answerClicked(q, i, ai)`: re-answer position `i`, dropping what follows,
        or append when `i` is at or past the end. */
    method AnswerClicked(q: QuestionId, i: int, ai: nat)
      modifies this
      ensures answers == AfterAnswer(old(answers), q, i, ai)
      ensures 0 <= i < |old(answers)| ==> answers == old(answers)[..i] + [Choice(q, ai)]
      ensures i >= |old(answers)| ==> answers == old(answers) + [Choice(q, ai)]
    {
      if i >= |answers| {
        answers := answers + [Choice(q, ai)];
      } else {
        answers := answers[..SliceEnd(i, |answers|)] + [Choice(q, ai)];
      }
      if 0 <= i < |old(answers)| {
        ReanswerTruncates(old(answers), q, i, ai);
      }
    }

    /** `currentQuestionsAndOutcome()` over the shipped table: the recorded
        answers come first, the ambiguity error is never thrown, and every
        displayed entry names a defined question. */
    function CurrentQuestionsAndOutcome(): (r: Result<View, WizardError>)
      reads this
      ensures r.Ok? ==> |answers| <= |r.value.questions| && r.value.questions[..|answers|] == Shown(answers)
      ensures !(r.Err? && r.error.Ambiguous?)
      ensures r.Ok? ==> forall e :: e in r.value.questions ==> e.Name().Some? && e.Name().value in Questions
    {
      ShippedNeverAmbiguous(answers);
      ShippedEntriesNamed(answers);
      Resolve(Outcomes, answers)
    }
  }
}
