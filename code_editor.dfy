/**
 * The shared code editor (client/src/components/editor/Editor.tsx).
 *
 * Every change of the text overwrites the content of the active file,
 * announces the change at once (TYPING_START with the cursor, then
 * FILE_UPDATED with the file id and the new content) and restarts a
 * one-second timer whose expiry announces TYPING_PAUSE: a debounce.
 *
 * Time is an abstract clock in milliseconds. The timer handle the editor
 * keeps is the deadline of the pending pause, if any; the browser's timer
 * queue is `AdvanceClock`, which fires the pending pause once the clock
 * reaches its deadline. Every socket emission is logged with the clock
 * reading at which it happened.
 */
module CodeEditor {
  import opened Wrappers
  import opened FileTypes

  /** The delay of the typing-pause timer, in milliseconds. */
  const PauseDelay: nat := 1000

  /** The socket events the editor emits. */
  datatype SocketEvent =
    | TypingStart(cursorPosition: Option<int>)
    | FileUpdated(fileId: string, newContent: string)
    | TypingPause

  /** An emitted event and the clock reading at which it was emitted. */
  datatype Stamped = Stamped(at: int, event: SocketEvent)

  /**
   * What the editor reads and writes: the active file, the clock, the
   * deadline of the pending pause timer, and the events sent so far.
   */
  datatype EditorState = EditorState(
    activeFile: Option<FileSystemItem>,
    now: int,
    pauseAt: Option<int>,
    sent: seq<Stamped>
  )

  /** `{ ...file, content: code }`: the file with only its content replaced. */
  function WithContent(file: FileSystemItem, code: string): FileSystemItem
  {
    file.(content := Some(code))
  }

  /**
   * onCodeChange: without an active file nothing happens; otherwise the
   * content is overwritten, the two announcements are sent, and the
   * pending pause is replaced by one due a second from now.
   */
  function CodeChange(s: EditorState, code: string, cursor: Option<int>): EditorState
  {
    if s.activeFile.None? then s
    else
      var file := s.activeFile.value;
      s.(activeFile := Some(WithContent(file, code)),
         sent := s.sent + [Stamped(s.now, TypingStart(cursor)), Stamped(s.now, FileUpdated(file.id, code))],
         pauseAt := Some(s.now + PauseDelay))
  }

  /**
   * `dt` milliseconds pass: a pause that falls due in that time is sent,
   * stamped with its deadline, and the timer is spent.
   */
  function Elapse(s: EditorState, dt: nat): EditorState
  {
    if s.pauseAt.Some? && s.pauseAt.value <= s.now + dt then
      s.(now := s.now + dt, pauseAt := None, sent := s.sent + [Stamped(s.pauseAt.value, TypingPause)])
    else
      s.(now := s.now + dt)
  }

  /** A keystroke `gap` milliseconds after the previous input. */
  datatype Keystroke = Keystroke(gap: nat, code: string, cursor: Option<int>)

  /** The editor after the keystrokes `ks`, each preceded by its gap. */
  function Type(s: EditorState, ks: seq<Keystroke>): EditorState
    decreases |ks|
  {
    if ks == [] then s
    else Type(CodeChange(Elapse(s, ks[0].gap), ks[0].code, ks[0].cursor), ks[1..])
  }

  /** The sum of the gaps of `ks`. */
  function TotalGap(ks: seq<Keystroke>): nat
    decreases |ks|
  {
    if ks == [] then 0 else ks[0].gap + TotalGap(ks[1..])
  }

  /** How many TYPING_PAUSE events `log` holds. */
  function Pauses(log: seq<Stamped>): nat
  {
    if log == [] then 0 else (if log[0].event.TypingPause? then 1 else 0) + Pauses(log[1..])
  }

  /** The count of TYPING_PAUSE events adds up over an appended log. */
  lemma {:induction false} PausesAppend(a: seq<Stamped>, b: seq<Stamped>)
    ensures Pauses(a + b) == Pauses(a) + Pauses(b)
  {
    if a == [] {
      assert a + b == b;
    } else {
      assert (a + b)[1..] == a[1..] + b;
      PausesAppend(a[1..], b);
    }
  }

  // ---------------------------------------------------------------------
  // The debounce invariant
  // ---------------------------------------------------------------------

  /** The pause at index `i` directly follows a content update sent exactly one delay earlier. */
  ghost predicate PauseAfterQuiet(log: seq<Stamped>, i: int)
    requires 0 <= i < |log|
  {
    i > 0 && log[i - 1].event.FileUpdated? && log[i - 1].at + PauseDelay == log[i].at
  }

  /**
   * The debounce law as a state invariant: events are sent in clock order
   * and never in the future; every pause comes right after a content
   * update, exactly one delay later, with nothing sent in between (so no
   * pause is sent while typing, and no two pauses for one quiet interval);
   * and a pending pause is due one delay after the last update sent, later
   * than now.
   */
  ghost predicate Debounced(s: EditorState)
  {
    && (forall i | 0 <= i < |s.sent| :: s.sent[i].at <= s.now)
    && (forall i | 0 < i < |s.sent| :: s.sent[i - 1].at <= s.sent[i].at)
    && (forall i | 0 <= i < |s.sent| && s.sent[i].event.TypingPause? :: PauseAfterQuiet(s.sent, i))
    && (s.pauseAt.Some? ==>
          && |s.sent| > 0
          && s.sent[|s.sent| - 1].event.FileUpdated?
          && s.sent[|s.sent| - 1].at + PauseDelay == s.pauseAt.value
          && s.now < s.pauseAt.value)
  }

  /** An editor that has sent nothing and has no pending pause keeps the invariant. */
  lemma InitialDebounced(file: Option<FileSystemItem>, now: int)
    ensures Debounced(EditorState(file, now, None, []))
  {
  }

  /** A change keeps the debounce invariant. */
  lemma CodeChangeDebounced(s: EditorState, code: string, cursor: Option<int>)
    requires Debounced(s)
    ensures Debounced(CodeChange(s, code, cursor))
  {
  }

  /** The passing of time keeps the debounce invariant. */
  lemma ElapseDebounced(s: EditorState, dt: nat)
    requires Debounced(s)
    ensures Debounced(Elapse(s, dt))
  {
  }

  /**
   * What the invariant buys: between any two pauses sent there is a
   * content update, so a single quiet interval never yields two pauses.
   */
  lemma PausesSeparatedByUpdate(s: EditorState, i: nat, j: nat)
    requires Debounced(s)
    requires i < j < |s.sent|
    requires s.sent[i].event.TypingPause? && s.sent[j].event.TypingPause?
    ensures exists k :: i < k < j && s.sent[k].event.FileUpdated?
  {
  }

  // ---------------------------------------------------------------------
  // Properties of one change
  // ---------------------------------------------------------------------

  /** Without an active file a change is a no-op: nothing sent, nothing rescheduled. */
  lemma NoActiveFileNoOp(s: EditorState, code: string, cursor: Option<int>)
    requires s.activeFile.None?
    ensures CodeChange(s, code, cursor) == s
  {
  }

  /**
   * With an active file a change replaces the content only (id, name, type,
   * children and open flag are kept), sends exactly two events in order,
   * TYPING_START then FILE_UPDATED for that file, no pause, and leaves
   * exactly one pause pending, due one delay from now.
   */
  lemma {:induction false} CodeChangeAnnounces(s: EditorState, code: string, cursor: Option<int>)
    requires s.activeFile.Some?
    ensures var r := CodeChange(s, code, cursor); var f := s.activeFile.value;
      && r.activeFile.Some?
      && r.activeFile.value.content == Some(code)
      && r.activeFile.value.id == f.id && r.activeFile.value.name == f.name
      && r.activeFile.value.kind == f.kind && r.activeFile.value.children == f.children
      && r.activeFile.value.isOpen == f.isOpen
      && |r.sent| == |s.sent| + 2 && r.sent[..|s.sent|] == s.sent
      && r.sent[|s.sent|] == Stamped(s.now, TypingStart(cursor))
      && r.sent[|s.sent| + 1] == Stamped(s.now, FileUpdated(f.id, code))
      && Pauses(r.sent) == Pauses(s.sent)
      && r.pauseAt == Some(s.now + PauseDelay) && r.now == s.now
  {
    var f := s.activeFile.value;
    var pair := [Stamped(s.now, TypingStart(cursor)), Stamped(s.now, FileUpdated(f.id, code))];
    assert pair[1..][1..] == [];
    assert Pauses(pair[1..]) == 0;
    assert Pauses(pair) == 0;
    PausesAppend(s.sent, pair);
  }

  /** Applying the same code twice leaves the same active file as applying it once. */
  lemma CodeChangeIdempotent(s: EditorState, code: string, c1: Option<int>, c2: Option<int>)
    ensures CodeChange(CodeChange(s, code, c1), code, c2).activeFile == CodeChange(s, code, c1).activeFile
  {
  }

  /** Time passing before the pause falls due sends nothing and keeps the timer. */
  lemma ElapseBeforeDeadline(s: EditorState, dt: nat)
    requires s.pauseAt.None? || s.now + dt < s.pauseAt.value
    ensures Elapse(s, dt) == s.(now := s.now + dt)
  {
  }

  // ---------------------------------------------------------------------
  // The debounce law for a burst of changes
  // ---------------------------------------------------------------------

  /**
   * A burst: at least one keystroke; the pending pause (if any) is not due
   * before the first one; every later keystroke comes less than one delay
   * after the previous.
   */
  predicate Burst(s: EditorState, ks: seq<Keystroke>)
  {
    && |ks| > 0
    && (s.pauseAt.Some? ==> s.now + ks[0].gap < s.pauseAt.value)
    && (forall i | 0 < i < |ks| :: ks[i].gap < PauseDelay)
  }

  /**
   * During a burst typed into an active file the earlier log is kept, two
   * events per keystroke are appended and none of them is a pause; and
   * afterwards exactly one pause is pending, due one delay after the last
   * keystroke.
   */
  lemma {:induction false} BurstSendsNoPause(s: EditorState, ks: seq<Keystroke>)
    requires s.activeFile.Some? && Burst(s, ks)
    ensures var t := Type(s, ks);
      && t.activeFile.Some?
      && t.now == s.now + TotalGap(ks)
      && t.pauseAt == Some(t.now + PauseDelay)
      && |t.sent| == |s.sent| + 2 * |ks|
      && t.sent[..|s.sent|] == s.sent
      && (forall i | |s.sent| <= i < |t.sent| :: !t.sent[i].event.TypingPause?)
      && Pauses(t.sent) == Pauses(s.sent)
    decreases |ks|
  {
    var s1 := Elapse(s, ks[0].gap);
    ElapseBeforeDeadline(s, ks[0].gap);
    CodeChangeAnnounces(s1, ks[0].code, ks[0].cursor);
    var s2 := CodeChange(s1, ks[0].code, ks[0].cursor);
    var n := |s.sent|;
    assert s2.sent[..n] == s.sent;
    assert forall i | n <= i < |s2.sent| :: !s2.sent[i].event.TypingPause?;
    if |ks| > 1 {
      var rest := ks[1..];
      assert rest[0] == ks[1];
      assert forall i | 0 < i < |rest| :: rest[i] == ks[i + 1];
      BurstSendsNoPause(s2, rest);
      var t := Type(s, ks);
      assert t == Type(s2, rest);
      assert t.sent[..|s2.sent|] == s2.sent;
      assert t.sent[..n] == s2.sent[..n];
      forall i | n <= i < |t.sent|
        ensures !t.sent[i].event.TypingPause?
      {
        if i < |s2.sent| {
          assert t.sent[i] == s2.sent[i];
        }
      }
    }
  }

  /**
   * The debounce law: a burst followed by at least one delay of quiet sends
   * exactly one pause, stamped one delay after the last keystroke and
   * directly after that keystroke's content update; nothing is pending
   * after it, so further quiet sends no more.
   */
  lemma {:induction false} BurstThenQuietSendsOnePause(s: EditorState, ks: seq<Keystroke>, quiet: nat)
    requires s.activeFile.Some? && Burst(s, ks)
    requires quiet >= PauseDelay
    ensures var t := Type(s, ks); var after := Elapse(t, quiet);
      && after.sent == t.sent + [Stamped(s.now + TotalGap(ks) + PauseDelay, TypingPause)]
      && Pauses(after.sent) == Pauses(s.sent) + 1
      && after.pauseAt.None?
      && (forall more: nat :: Elapse(after, more).sent == after.sent)
  {
    var t := Type(s, ks);
    BurstSendsNoPause(s, ks);
    var pause := [Stamped(t.now + PauseDelay, TypingPause)];
    assert Pauses(pause) == 1 by {
      assert pause[1..] == [];
    }
    PausesAppend(t.sent, pause);
  }

  /** Quiet shorter than one delay after a burst sends nothing. */
  lemma {:induction false} BurstThenShortWaitSendsNothing(s: EditorState, ks: seq<Keystroke>, wait: nat)
    requires s.activeFile.Some? && Burst(s, ks)
    requires wait < PauseDelay
    ensures var t := Type(s, ks);
      Elapse(t, wait).sent == t.sent && Elapse(t, wait).pauseAt == t.pauseAt
  {
    BurstSendsNoPause(s, ks);
  }

  // ---------------------------------------------------------------------
  // Collaborators and editor extensions
  // ---------------------------------------------------------------------

  /** A remote participant as the editor sees it: its name and its connection. */
  datatype RemoteUser = RemoteUser(username: string, socketId: string)

  /**
   * filteredUsers: the participants whose name differs from the local
   * participant's, in their original order.
   */
  function FilteredUsers(users: seq<RemoteUser>, me: string): (r: seq<RemoteUser>)
    ensures forall u :: u in r <==> u in users && u.username != me
    ensures |r| <= |users|
    decreases |users|
  {
    if users == [] then []
    else (if users[0].username != me then [users[0]] else []) + FilteredUsers(users[1..], me)
  }

  /** Filtering distributes over concatenation, so the original order is kept. */
  lemma {:induction false} FilteredUsersAppend(a: seq<RemoteUser>, b: seq<RemoteUser>, me: string)
    ensures FilteredUsers(a + b, me) == FilteredUsers(a, me) + FilteredUsers(b, me)
    decreases |a|
  {
    if a == [] {
      assert a + b == b;
    } else {
      assert (a + b)[1..] == a[1..] + b;
      FilteredUsersAppend(a[1..], b, me);
    }
  }

  /** When nobody else has the local participant's name, every participant is kept. */
  lemma {:induction false} FilteredUsersKeepsOthers(users: seq<RemoteUser>, me: string)
    requires forall i | 0 <= i < |users| :: users[i].username != me
    ensures FilteredUsers(users, me) == users
    decreases |users|
  {
    if users != [] {
      FilteredUsersKeepsOthers(users[1..], me);
    }
  }

  /** The CodeMirror extensions the editor installs. */
  datatype Extension =
    | ColorHighlight
    | HyperLinks
    | CollaboratorTooltips(users: seq<RemoteUser>)
    | CursorTooltipTheme
    | ScrollPastEnd
    | LanguageSupport(language: string)

  /**
   * The extension list: the five fixed extensions, the tooltips carrying
   * the filtered participants, and the language support when the lookup
   * for the chosen language succeeds; `warned` says whether the
   * "syntax highlighting is unavailable" toast is shown.
   */
  function Extensions(filtered: seq<RemoteUser>, lookup: Option<string>): (r: (seq<Extension>, bool))
    ensures |r.0| >= 5 && r.0[..5] == [ColorHighlight, HyperLinks, CollaboratorTooltips(filtered), CursorTooltipTheme, ScrollPastEnd]
    ensures |r.0| == 6 <==> lookup.Some?
    ensures |r.0| == 5 <==> lookup.None?
    ensures lookup.Some? ==> r.0[5] == LanguageSupport(lookup.value)
    ensures r.1 <==> lookup.None?
  {
    var base := [ColorHighlight, HyperLinks, CollaboratorTooltips(filtered), CursorTooltipTheme, ScrollPastEnd];
    match lookup
    case Some(lang) => (base + [LanguageSupport(lang)], false)
    case None => (base, true)
  }

  // ---------------------------------------------------------------------
  // The editor component
  // ---------------------------------------------------------------------

  /**
   * The editor with the state it updates in place: the active file of the
   * file context, the clock, the pending timer and the socket's log.
   */
  class EditorSession {
    var activeFile: Option<FileSystemItem>
    var now: int
    var pauseAt: Option<int>
    var sent: seq<Stamped>

    /** The editor's state as a value. */
    function State(): EditorState
      reads this
    {
      EditorState(activeFile, now, pauseAt, sent)
    }

    ghost predicate Valid()
      reads this
    {
      Debounced(State())
    }

    /** An editor mounted at clock reading `start` on `file`; its initial timer does nothing. */
    constructor (file: Option<FileSystemItem>, start: int)
      ensures Valid()
      ensures State() == EditorState(file, start, None, [])
    {
      activeFile := file;
      now := start;
      pauseAt := None;
      sent := [];
      InitialDebounced(file, start);
    }

    /** onCodeChange, with the cursor head read from the view update as `cursor`. */
    method OnCodeChange(code: string, cursor: Option<int>)
      requires Valid()
      modifies this
      ensures Valid()
      ensures old(activeFile).None? ==> State() == old(State())
      ensures old(activeFile).Some? ==>
        && activeFile == Some(WithContent(old(activeFile).value, code))
        && sent == old(sent) + [Stamped(now, TypingStart(cursor)), Stamped(now, FileUpdated(old(activeFile).value.id, code))]
        && pauseAt == Some(now + PauseDelay)
      ensures now == old(now)
      ensures State() == CodeChange(old(State()), code, cursor)
    {
      if activeFile.None? {
        return;
      }
      var file := activeFile.value.(content := Some(code));
      var fileId := activeFile.value.id;
      CodeChangeDebounced(State(), code, cursor);
      activeFile := Some(file);
      sent := sent + [Stamped(now, TypingStart(cursor))];
      sent := sent + [Stamped(now, FileUpdated(fileId, code))];
      pauseAt := None;
      pauseAt := Some(now + PauseDelay);
    }

    /** `dt` milliseconds pass; the pending timer fires if it falls due. */
    method AdvanceClock(dt: nat)
      requires Valid()
      modifies this
      ensures Valid()
      ensures activeFile == old(activeFile) && now == old(now) + dt
      ensures old(pauseAt).Some? && old(pauseAt).value <= now ==>
        pauseAt.None? && sent == old(sent) + [Stamped(old(pauseAt).value, TypingPause)]
      ensures (old(pauseAt).None? || now < old(pauseAt).value) ==>
        pauseAt == old(pauseAt) && sent == old(sent)
      ensures State() == Elapse(old(State()), dt)
    {
      ElapseDebounced(State(), dt);
      now := now + dt;
      if pauseAt.Some? && pauseAt.value <= now {
        sent := sent + [Stamped(pauseAt.value, TypingPause)];
        pauseAt := None;
      }
    }
  }
}
