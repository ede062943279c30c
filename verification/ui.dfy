/** The form that fills in a `Commit` (ui.go): the closed list of commit
    types, the seeding of the description from an optional message, the
    live "characters remaining" titles, the description validator, and the
    Bubble Tea `Update` dispatch. The huh form itself is abstract: on each
    event it reports its new state, the field values it wrote through its
    bindings, and the command it wants run; what the library guarantees
    about those reports is the `Honors` predicate. */
module Ui {
  import opened Base
  import Decimal
  import opened Git

  /** `descriptionLength` and `bodyLength`, the `CharLimit`s of the two
      second-page fields. */
  const DescriptionLength: int := 60
  const BodyLength: int := 1000

  // ---------------------------------------------------------------------
  // Commit types
  // ---------------------------------------------------------------------

  /** The eleven conventional-commit categories the type select offers. */
  datatype CommitType =
    | Feat | Fix | Build | Chore | Ci | Docs | Perf | Refactor | Revert | Style | Test

  /** The value a type is stored under in `Commit.Type`. */
  function TypeName(t: CommitType): Bytes {
    match t
    case Feat => "feat"
    case Fix => "fix"
    case Build => "build"
    case Chore => "chore"
    case Ci => "ci"
    case Docs => "docs"
    case Perf => "perf"
    case Refactor => "refactor"
    case Revert => "revert"
    case Style => "style"
    case Test => "test"
  }

  /** The inverse of `TypeName`. */
  function ParseCommitType(s: Bytes): (r: Option<CommitType>)
    ensures r.Some? ==> TypeName(r.value) == s
  {
    if s == "feat" then Some(Feat)
    else if s == "fix" then Some(Fix)
    else if s == "build" then Some(Build)
    else if s == "chore" then Some(Chore)
    else if s == "ci" then Some(Ci)
    else if s == "docs" then Some(Docs)
    else if s == "perf" then Some(Perf)
    else if s == "refactor" then Some(Refactor)
    else if s == "revert" then Some(Revert)
    else if s == "style" then Some(Style)
    else if s == "test" then Some(Test)
    else None
  }

  /** Every type name reads back as its type, so no two types share a name. */
  lemma TypeNameRoundTrip(t: CommitType)
    ensures ParseCommitType(TypeName(t)) == Some(t)
  {
  }

  /** One entry of a huh select: the text shown and the value stored. */
  datatype SelectOption = SelectOption(key: string, value: Bytes)

  /** `commitTypes`, in the order the select lists them. */
  const CommitTypes: seq<SelectOption> := [
    SelectOption("feat - a new feature", "feat"),
    SelectOption("fix - a bug fix", "fix"),
    SelectOption("build - changes that affect the build system or external dependencies", "build"),
    SelectOption("chore - changes to the build process or auxiliary tools and libraries", "chore"),
    SelectOption("ci - changes to our CI configuration files and scripts", "ci"),
    SelectOption("docs - documentation only changes", "docs"),
    SelectOption("perf - a code change that improves performance", "perf"),
    SelectOption("refactor - a code change that neither fixes a bug nor adds a feature", "refactor"),
    SelectOption("revert - reverts a previous commit", "revert"),
    SelectOption("style - changes that do not affect the meaning of the code", "style"),
    SelectOption("test - adding missing tests or correcting existing tests", "test")
  ]

  /** A value the type select can store. */
  predicate IsCommitType(s: Bytes) {
    exists i :: 0 <= i < |CommitTypes| && CommitTypes[i].value == s
  }

  /** The select offers the eleven types and nothing else. */
  lemma CommitTypesAreTheTypes()
    ensures |CommitTypes| == 11
    ensures forall i :: 0 <= i < |CommitTypes| ==> ParseCommitType(CommitTypes[i].value).Some?
    ensures forall t: CommitType :: IsCommitType(TypeName(t))
  {
    forall t: CommitType ensures IsCommitType(TypeName(t)) {
      match t
      case Feat => assert CommitTypes[0].value == TypeName(t);
      case Fix => assert CommitTypes[1].value == TypeName(t);
      case Build => assert CommitTypes[2].value == TypeName(t);
      case Chore => assert CommitTypes[3].value == TypeName(t);
      case Ci => assert CommitTypes[4].value == TypeName(t);
      case Docs => assert CommitTypes[5].value == TypeName(t);
      case Perf => assert CommitTypes[6].value == TypeName(t);
      case Refactor => assert CommitTypes[7].value == TypeName(t);
      case Revert => assert CommitTypes[8].value == TypeName(t);
      case Style => assert CommitTypes[9].value == TypeName(t);
      case Test => assert CommitTypes[10].value == TypeName(t);
    }
  }

  /** A stored type is one of the eleven names exactly when it parses. */
  lemma IsCommitTypeIff(s: Bytes)
    ensures IsCommitType(s) <==> ParseCommitType(s).Some?
  {
    CommitTypesAreTheTypes();
    if ParseCommitType(s).Some? {
      assert IsCommitType(TypeName(ParseCommitType(s).value));
    }
  }

  /** No type name holds a byte that ends the type in a message. */
  lemma TypeNameHasNoStops(t: CommitType)
    ensures forall i :: 0 <= i < |TypeName(t)| ==> TypeName(t)[i] !in TypeStops
  {
  }

  /** A selectable type never holds the punctuation that ends a type in a
      message, so a one-line description and a scope without `)` make the
      message readable back into the record. */
  lemma SelectableTypeUnambiguous(c: Commit)
    requires IsCommitType(c.kind)
    requires forall i :: 0 <= i < |c.scope| ==> c.scope[i] != ')'
    requires forall i :: 0 <= i < |c.description| ==> c.description[i] != '\n'
    ensures Unambiguous(c)
    ensures Parse(Message(c)) == Some(c)
  {
    IsCommitTypeIff(c.kind);
    TypeNameHasNoStops(ParseCommitType(c.kind).value);
    assert Unambiguous(c);
    ParseMessage(c);
  }

  // ---------------------------------------------------------------------
  // Seeding, remaining counts, titles, validation
  // ---------------------------------------------------------------------

  /** The commit `NewModel` starts from: all fields empty, except that a
      given message, cut to the description limit, seeds the description.
      The cut counts bytes, as Go slicing does. */
  function NewCommit(msg: Option<Bytes>): (c: Commit)
    ensures c.kind == [] && !c.breakingChange && c.scope == [] && c.body == []
    ensures msg.None? ==> c.description == []
    ensures msg.Some? ==> |c.description| <= DescriptionLength && c.description <= msg.value
    ensures msg.Some? && |msg.value| <= DescriptionLength ==> c.description == msg.value
    ensures msg.Some? && |msg.value| > DescriptionLength ==> |c.description| == DescriptionLength
  {
    var description := if msg.Some? then msg.value[..Min(DescriptionLength, |msg.value|)] else [];
    Commit([], false, [], description, [])
  }

  /** The count a field's title shows: its limit less its length. */
  function Remaining(limit: int, field: Bytes): (r: int)
    ensures |field| <= limit <==> r >= 0
    ensures r <= limit
    ensures r == limit <==> field == []
  {
    limit - |field|
  }

  const RemainingSuffix: Bytes := " characters remaining"

  /** The `title` closure: `fmt.Sprintf("%s %d characters remaining", s, i)`. */
  function Title(s: Bytes, n: int): (t: Bytes)
    ensures |t| > |s| + 1 + |RemainingSuffix|
    ensures t[..|s|] == s && t[|s|] == ' '
    ensures t[|t| - |RemainingSuffix|..] == RemainingSuffix
  {
    s + " " + Decimal.Format(n) + RemainingSuffix
  }

  /** Reads the count back out of a title over the prompt `s`, or None. */
  function TitleCount(s: Bytes, t: Bytes): Option<int> {
    if |t| < |s| + 1 + |RemainingSuffix| || t[..|s| + 1] != s + " "
       || t[|t| - |RemainingSuffix|..] != RemainingSuffix
    then None
    else Decimal.Parse(t[|s| + 1..|t| - |RemainingSuffix|])
  }

  /** A title shows its count so that it can be read back: titles over one
      prompt with different counts differ. */
  lemma TitleRoundTrip(s: Bytes, n: int)
    ensures TitleCount(s, Title(s, n)) == Some(n)
  {
    var d := Decimal.Format(n);
    var t := Title(s, n);
    assert t == (s + " ") + d + RemainingSuffix;
    assert t[..|s| + 1] == s + " ";
    assert t[|s| + 1..|t| - |RemainingSuffix|] == d;
    Decimal.FormatRoundTrip(n);
  }

  const DescriptionPrompt: Bytes := "What is the commit about at a high level?"
  const BodyPrompt: Bytes := "What is the commit about in more detail?"

  /** The description field's live title as written: it reports 60 less
      the description's length in bytes, which is between 0 and 60 only
      for a description of at most 60 bytes. An empty description shows the
      static initial title. */
  function DescriptionTitle(c: Commit): (t: Bytes)
    ensures TitleCount(DescriptionPrompt, t) == Some(DescriptionLength - |c.description|)
    ensures |c.description| <= DescriptionLength ==>
      0 <= TitleCount(DescriptionPrompt, t).value <= DescriptionLength
    ensures c.description == [] ==> t == Title(DescriptionPrompt, DescriptionLength)
  {
    var n := Remaining(DescriptionLength, c.description);
    TitleRoundTrip(DescriptionPrompt, n);
    Title(DescriptionPrompt, n)
  }

  /** The body field's live title, likewise 1000 less the body's length in
      bytes. */
  function BodyTitle(c: Commit): (t: Bytes)
    ensures TitleCount(BodyPrompt, t) == Some(BodyLength - |c.body|)
    ensures |c.body| <= BodyLength ==> 0 <= TitleCount(BodyPrompt, t).value <= BodyLength
    ensures c.body == [] ==> t == Title(BodyPrompt, BodyLength)
  {
    var n := Remaining(BodyLength, c.body);
    TitleRoundTrip(BodyPrompt, n);
    Title(BodyPrompt, n)
  }

  /** A 61-byte description of 59 ASCII letters and one two-byte character
      (U+00E9): 60 characters, so within the field's `CharLimit`. */
  const WideDescription: Bytes := seq(59, _ => 'a') + [0xC3 as char, 0xA9 as char]

  /** The description title counts bytes while the field's limit counts
      characters: a description the field accepts is titled
      "-1 characters remaining". */
  lemma DescriptionCountGoesNegative()
    ensures var c := Commit([], false, [], WideDescription, []);
      && CharCount(c.description) == DescriptionLength
      && |c.description| == DescriptionLength + 1
      && TitleCount(DescriptionPrompt, DescriptionTitle(c)) == Some(-1)
  {
    var e := [0xC3 as char, 0xA9 as char];
    assert CharCount(e) == 1 by {
      assert e[1..] == [0xA9 as char];
    }
    CharCountAppend(seq(59, _ => 'a'), e);
  }

  /** The description title counting characters, as its wording says: it
      stays between 0 and 60 for every description within the field's
      `CharLimit`. */
  function CharDescriptionTitle(c: Commit): (t: Bytes)
    ensures TitleCount(DescriptionPrompt, t) == Some(DescriptionLength - CharCount(c.description))
    ensures CharCount(c.description) <= DescriptionLength ==>
      0 <= TitleCount(DescriptionPrompt, t).value <= DescriptionLength
    ensures c.description == [] ==> t == Title(DescriptionPrompt, DescriptionLength)
  {
    var n := DescriptionLength - CharCount(c.description);
    TitleRoundTrip(DescriptionPrompt, n);
    Title(DescriptionPrompt, n)
  }

  /** The description validator: an error exactly for the empty string. */
  function ValidateDescription(s: Bytes): (r: Option<Bytes>)
    ensures r.Some? <==> |s| == 0
    ensures r.Some? ==> r.value == "description cannot be empty"
  {
    if |s| == 0 then Some("description cannot be empty") else None
  }

  // ---------------------------------------------------------------------
  // The form model and its update function
  // ---------------------------------------------------------------------

  /** Whether the huh form has been submitted. */
  datatype FormState = Editing | Completed

  /** The Bubble Tea model: the form's state and the commit its fields are
      bound to. Styles and the width used for rendering are not modelled. */
  datatype Model = Model(state: FormState, commit: Commit)

  /** The messages `Update` distinguishes. */
  datatype Msg = KeyPress(key: Bytes) | WindowSize(width: int, height: int) | Other(tag: nat)

  /** The command the form asks for, opaque here; `Nil` is Go's nil. */
  datatype FormEffect = Nil | Effect(id: nat)

  /** The commands `Update` can return: `tea.Interrupt`, `tea.Quit`, a
      command of the form's, and `tea.Batch` of a list of these. */
  datatype Cmd = Interrupt | Quit | FormCmd(effect: FormEffect) | Batch(cmds: seq<Cmd>)

  /** What `m.form.Update(msg)` reports: whether the model it returns is
      still a `*huh.Form`, the state of the model's form after the call,
      the commit as the form's bindings left it, and the command it
      returned. The form is updated in place through its pointer, so the
      state is the new one whether or not the returned model is a form. */
  datatype FormReply = FormReply(isForm: bool, state: FormState, commit: Commit, effect: FormEffect)

  datatype Transition = Transition(model: Model, cmd: Cmd)

  /** The keys `Update` handles itself, before the form sees them. */
  predicate IsInterruptKey(msg: Msg) { msg == KeyPress("ctrl+c") }
  predicate IsEscapeKey(msg: Msg) { msg == KeyPress("esc") }

  /** `Model.Update`: ctrl+c interrupts and esc quits, neither reaching the
      form; any other message (a window resize included) goes to the form,
      whose command is batched, followed by a quit once the form is
      completed. */
  function Update(m: Model, msg: Msg, reply: FormReply): (r: Transition)
    ensures IsInterruptKey(msg) ==> r == Transition(m, Interrupt)
    ensures IsEscapeKey(msg) ==> r == Transition(m, Quit)
    ensures !IsInterruptKey(msg) && !IsEscapeKey(msg) ==>
      && r.cmd.Batch?
      && r.model.commit == reply.commit
      && r.model.state == reply.state
      && (Quit in r.cmd.cmds <==> r.model.state == Completed)
      && (FormCmd(reply.effect) in r.cmd.cmds <==> reply.isForm)
      && Interrupt !in r.cmd.cmds
      && |r.cmd.cmds| == (if reply.isForm then 1 else 0) + (if r.model.state == Completed then 1 else 0)
  {
    if IsInterruptKey(msg) then Transition(m, Interrupt)
    else if IsEscapeKey(msg) then Transition(m, Quit)
    else
      var formCmds := if reply.isForm then [FormCmd(reply.effect)] else [];
      var cmds := formCmds + (if reply.state == Completed then [Quit] else []);
      Transition(Model(reply.state, reply.commit), Batch(cmds))
  }

  // ---------------------------------------------------------------------
  // The session invariant
  // ---------------------------------------------------------------------

  /** The description holds at most 60 characters, the measure of the
      input's `CharLimit`. */
  predicate WithinCharLimit(c: Commit) {
    CharCount(c.description) <= DescriptionLength
  }

  /** A commit fit to be written: within the char limit, a selectable type,
      and a description the validator accepts. */
  predicate Ready(c: Commit) {
    WithinCharLimit(c) && IsCommitType(c.kind) && ValidateDescription(c.description).None?
  }

  /** What holds of the model between events: the char limit holds, the type is
      unset or selectable, and a completed form holds a ready commit. */
  predicate Inv(m: Model) {
    && WithinCharLimit(m.commit)
    && (m.commit.kind == [] || IsCommitType(m.commit.kind))
    && (m.state == Completed ==> Ready(m.commit))
  }

  /** What the huh library is assumed to guarantee of a reply to a model:
      the input's `CharLimit` lets the description grow to no more than 60
      characters (a description it did not touch keeps its value), the
      select only stores one of its options, and the form completes only
      once the validator has passed and a type is selected. */
  predicate Honors(m: Model, reply: FormReply) {
    var c := reply.commit;
    && (CharCount(c.description) <= DescriptionLength || c.description == m.commit.description)
    && (c.kind == m.commit.kind || IsCommitType(c.kind))
    && (reply.state == Completed ==> ValidateDescription(c.description).None? && IsCommitType(c.kind))
  }

  /** `NewModel`: an editing form over the seeded commit; the cut to the
      description limit is what makes the invariant hold from the start. */
  function NewModel(msg: Option<Bytes>): (m: Model)
    ensures m.state == Editing
    ensures m.commit == NewCommit(msg)
    ensures Inv(m)
  {
    Model(Editing, NewCommit(msg))
  }

  /** Between events, the corrected description title shows a count
      between 0 and 60. */
  lemma InvTitleInRange(m: Model)
    requires Inv(m)
    ensures 0 <= TitleCount(DescriptionPrompt, CharDescriptionTitle(m.commit)).value <= DescriptionLength
  {
  }

  /** One update keeps the invariant when the form honours its contract. */
  lemma UpdateKeepsInv(m: Model, msg: Msg, reply: FormReply)
    requires Inv(m) && Honors(m, reply)
    ensures Inv(Update(m, msg, reply).model)
  {
  }

  // ---------------------------------------------------------------------
  // A session: events until the program is told to stop
  // ---------------------------------------------------------------------

  /** One event and the form's reply to it (ignored for ctrl+c and esc). */
  datatype Event = Event(msg: Msg, reply: FormReply)

  /** How a session ends: interrupted, quit, or still waiting for input. */
  datatype Outcome = Interrupted(model: Model) | Quitted(model: Model) | Waiting(model: Model)

  /** Whether a command tells the program to quit. */
  predicate Quits(cmd: Cmd) {
    cmd == Quit || (cmd.Batch? && Quit in cmd.cmds)
  }

  /** Feeds events to `Update` until a command stops the program. */
  function Run(m: Model, events: seq<Event>): Outcome
    decreases |events|
  {
    if events == [] then Waiting(m)
    else
      var t := Update(m, events[0].msg, events[0].reply);
      if t.cmd == Interrupt then Interrupted(t.model)
      else if Quits(t.cmd) then Quitted(t.model)
      else Run(t.model, events[1..])
  }

  /** Every reply the session consumes honours the form's contract. */
  predicate HonoredBy(m: Model, events: seq<Event>)
    decreases |events|
  {
    events != [] ==>
      var t := Update(m, events[0].msg, events[0].reply);
      && Honors(m, events[0].reply)
      && (t.cmd == Interrupt || Quits(t.cmd) || HonoredBy(t.model, events[1..]))
  }

  /** The invariant holds of the model a session ends with. */
  lemma {:induction false} RunKeepsInv(m: Model, events: seq<Event>)
    requires Inv(m) && HonoredBy(m, events)
    ensures Inv(Run(m, events).model)
    decreases |events|
  {
    if events != [] {
      UpdateKeepsInv(m, events[0].msg, events[0].reply);
      var t := Update(m, events[0].msg, events[0].reply);
      if t.cmd != Interrupt && !Quits(t.cmd) {
        RunKeepsInv(t.model, events[1..]);
      }
    }
  }

  /** A session stops with an interrupt only for ctrl+c, and with a quit
      only for esc or a completed form; while it waits, no such event has
      been seen. */
  lemma {:induction false} RunStopsOnlyFor(m: Model, events: seq<Event>)
    ensures Run(m, events).Interrupted? ==>
      exists i :: 0 <= i < |events| && IsInterruptKey(events[i].msg)
    ensures Run(m, events).Quitted? ==>
      Run(m, events).model.state == Completed || exists i :: 0 <= i < |events| && IsEscapeKey(events[i].msg)
    ensures Run(m, events).Waiting? ==>
      forall i :: 0 <= i < |events| ==> !IsInterruptKey(events[i].msg) && !IsEscapeKey(events[i].msg)
    decreases |events|
  {
    if events != [] {
      var t := Update(m, events[0].msg, events[0].reply);
      if t.cmd == Interrupt {
        assert IsInterruptKey(events[0].msg);
      } else if Quits(t.cmd) {
        if !IsEscapeKey(events[0].msg) {
          assert t.model.state == Completed;
        }
      } else {
        RunStopsOnlyFor(t.model, events[1..]);
        assert forall i :: 1 <= i < |events| ==> events[i] == events[1..][i - 1];
        if Run(m, events).Interrupted? {
          var i :| 0 <= i < |events[1..]| && IsInterruptKey(events[1..][i].msg);
          assert IsInterruptKey(events[i + 1].msg);
        }
        if Run(m, events).Quitted? && Run(m, events).model.state != Completed {
          var i :| 0 <= i < |events[1..]| && IsEscapeKey(events[1..][i].msg);
          assert IsEscapeKey(events[i + 1].msg);
        }
      }
    }
  }

  /** A session started by `NewModel` that quits on a completed form hands
      over a ready commit, whose message begins with a selectable type and
      reads back into that commit when its scope and description are
      plain. */
  lemma CompletedSessionIsReady(msg: Option<Bytes>, events: seq<Event>)
    requires HonoredBy(NewModel(msg), events)
    ensures var o := Run(NewModel(msg), events);
      o.Quitted? && o.model.state == Completed ==>
        && Ready(o.model.commit)
        && IsCommitType(Message(o.model.commit)[..|o.model.commit.kind|])
        && ((forall i :: 0 <= i < |o.model.commit.scope| ==> o.model.commit.scope[i] != ')')
            && (forall i :: 0 <= i < |o.model.commit.description| ==> o.model.commit.description[i] != '\n')
            ==> Parse(Message(o.model.commit)) == Some(o.model.commit))
  {
    RunKeepsInv(NewModel(msg), events);
    var o := Run(NewModel(msg), events);
    var c := o.model.commit;
    StartsWithType(c);
    if o.Quitted? && o.model.state == Completed
       && (forall i :: 0 <= i < |c.scope| ==> c.scope[i] != ')')
       && (forall i :: 0 <= i < |c.description| ==> c.description[i] != '\n')
    {
      SelectableTypeUnambiguous(c);
    }
  }
}
