/**
 * The join form of the collaborative editor
 * (client/src/components/forms/FormComponent.tsx).
 *
 * The form owns the local participant's name and room id, validates them,
 * sends one JOIN_REQUEST per join attempt and, once the session is JOINED,
 * either navigates to the editor (first time in this tab) or cycles the
 * connection (re-entry). The socket, the toasts, the navigation and the
 * tab's session storage are abstract: the socket is its `connected` flag,
 * the session storage is the one-shot `redirect` marker, and everything the
 * form does to the outside world is appended to a log of `Effect`s.
 *
 * The transition functions (`...Step`) are the specification; the class
 * `JoinFormSession` is the form itself, updating its fields step by step
 * as the component does, and each of its methods is proved to perform its
 * step.
 */
module JoinForm {
  import opened Wrappers

  /** USER_STATUS as far as the form reads and writes it. */
  datatype UserStatus = Initial | AttemptingJoin | Joined | Disconnected

  /** `currentUser`: what the participant typed into the two inputs. */
  datatype User = User(username: string, roomId: string)

  /** The `name` attribute of the two inputs of the form. */
  datatype Field = Username | RoomId

  /** The four validation failures, in the order the form checks them. */
  datatype FormError = EmptyUsername | EmptyRoomId | ShortRoomId | ShortUsername

  datatype ToastKind = Success | Error | Loading

  /** One thing the form does to the world outside its own state. */
  datatype Effect =
    | JoinRequest(user: User)                  // socket.emit(JOIN_REQUEST, currentUser)
    | Connect                                  // socket.connect()
    | Disconnect                               // socket.disconnect()
    | Navigate(path: string, username: string) // navigate(path, { state: { username } })
    | Toast(kind: ToastKind, message: string)

  /**
   * Everything the form reads and writes: the shared status and user, the
   * session-storage marker "redirect", the socket's `connected` flag and
   * the log of effects so far.
   */
  datatype FormState = FormState(
    status: UserStatus,
    user: User,
    redirect: bool,
    connected: bool,
    log: seq<Effect>
  )

  const MinUsernameLength: nat := 3
  const MinRoomIdLength: nat := 5

  const RoomCreatedMessage := "Created a new Room Id"
  const JoiningMessage := "Joining room..."
  const EnterUsernameMessage := "Enter your username"

  /** The state the application context starts in. */
  function Init(redirect: bool, connected: bool): FormState
  {
    FormState(Initial, User("", ""), redirect, connected, [])
  }

  /** The text of the error toast for each validation failure. */
  function Message(e: FormError): string
  {
    match e
    case EmptyUsername => EnterUsernameMessage
    case EmptyRoomId => "Enter a room id"
    case ShortRoomId => "ROOM Id must be at least 5 characters long"
    case ShortUsername => "Username must be at least 3 characters long"
  }

  /** The route the form navigates to once the participant has joined `roomId`. */
  function EditorPath(roomId: string): string
  {
    "/editor/" + roomId
  }

  // ---------------------------------------------------------------------
  // Validation
  // ---------------------------------------------------------------------

  /**
   * The `length` of a JavaScript string: the number of UTF-16 code units,
   * which is two for every character beyond U+FFFF and one for the others.
   */
  function Utf16Length(s: string): nat
  {
    if s == [] then 0 else (if s[0] as int > 0xFFFF then 2 else 1) + Utf16Length(s[1..])
  }

  /** A string has length zero exactly when it is empty, and never more code units than twice its characters. */
  lemma {:induction false} Utf16LengthBounds(s: string)
    ensures Utf16Length(s) == 0 <==> s == []
    ensures |s| <= Utf16Length(s) <= 2 * |s|
  {
    if s != [] {
      Utf16LengthBounds(s[1..]);
    }
  }

  /**
   * A name of one character beyond U+FFFF followed by one more character
   * is three code units long, so it passes validation.
   */
  lemma AstralNameIsLongEnough()
    ensures Validate(User("\U{1F600}a", "room1")) == None
  {
  }

  /**
   * Every rule `u` breaks, each checked on its own, listed in the order
   * of precedence the form reports them in.
   */
  function Violations(u: User): seq<FormError>
  {
    (if Utf16Length(u.username) == 0 then [EmptyUsername] else [])
    + (if Utf16Length(u.roomId) == 0 then [EmptyRoomId] else [])
    + (if Utf16Length(u.roomId) < MinRoomIdLength then [ShortRoomId] else [])
    + (if Utf16Length(u.username) < MinUsernameLength then [ShortUsername] else [])
  }

  /**
   * The decision of `validateForm`: no error exactly when the name has at
   * least 3 code units and the room id at least 5 (the two emptiness
   * checks are subsumed), and otherwise the first broken rule in order
   * of precedence.
   */
  function Validate(u: User): (r: Option<FormError>)
    ensures r.None? <==> Utf16Length(u.username) >= MinUsernameLength && Utf16Length(u.roomId) >= MinRoomIdLength
    ensures r.None? <==> Violations(u) == []
    ensures r.Some? ==> Violations(u) != [] && r.value == Violations(u)[0]
  {
    if Utf16Length(u.username) == 0 then Some(EmptyUsername)
    else if Utf16Length(u.roomId) == 0 then Some(EmptyRoomId)
    else if Utf16Length(u.roomId) < MinRoomIdLength then Some(ShortRoomId)
    else if Utf16Length(u.username) < MinUsernameLength then Some(ShortUsername)
    else None
  }

  /** Each error is reported only when every rule of higher precedence holds. */
  lemma ErrorPrecedence(u: User)
    ensures Validate(u) == Some(EmptyRoomId) ==> Utf16Length(u.username) > 0
    ensures Validate(u) == Some(ShortRoomId) ==> Utf16Length(u.username) > 0 && Utf16Length(u.roomId) > 0
    ensures Validate(u) == Some(ShortUsername) ==> Utf16Length(u.username) > 0 && Utf16Length(u.roomId) >= MinRoomIdLength
    ensures Utf16Length(u.username) == 0 ==> Validate(u) == Some(EmptyUsername)
  {
  }

  // ---------------------------------------------------------------------
  // The transitions, as functions of the form's state
  // ---------------------------------------------------------------------

  /** createNewRoomId: a fresh identifier replaces the room id. */
  function CreateNewRoomIdStep(s: FormState, freshId: string): FormState
  {
    s.(user := s.user.(roomId := freshId), log := s.log + [Toast(Success, RoomCreatedMessage)])
  }

  /** handleInputChanges: the named input's value replaces that field. */
  function InputChangeStep(s: FormState, field: Field, value: string): FormState
  {
    match field
    case Username => s.(user := s.user.(username := value))
    case RoomId => s.(user := s.user.(roomId := value))
  }

  /**
   * joinRoom: ignored while a join is in flight; on invalid input one error
   * toast; otherwise a loading toast, status ATTEMPTING_JOIN and one
   * JOIN_REQUEST carrying the current user.
   */
  function JoinRoomStep(s: FormState): FormState
  {
    if s.status == AttemptingJoin then s
    else
      match Validate(s.user)
      case Some(e) => s.(log := s.log + [Toast(Error, Message(e))])
      case None => s.(status := AttemptingJoin, log := s.log + [Toast(Loading, JoiningMessage), JoinRequest(s.user)])
  }

  /**
   * The effect on the router's location state: a room id handed over by
   * the previous page fills an empty room id (an empty string counts as
   * absent); a hint is shown when the name is still empty.
   */
  function LocationEffectStep(s: FormState, locationRoomId: Option<string>): FormState
  {
    if Utf16Length(s.user.roomId) > 0 then s
    else if locationRoomId.Some? && |locationRoomId.value| > 0 then
      s.(user := s.user.(roomId := locationRoomId.value),
         log := s.log + if Utf16Length(s.user.username) == 0 then [Toast(Success, EnterUsernameMessage)] else [])
    else s
  }

  /**
   * The effect on the status: reconnect a disconnected socket; on a first
   * JOINED set the marker and open the editor; on a JOINED seen again with
   * the marker set, clear it, go back to DISCONNECTED and cycle the socket.
   */
  function StatusEffectStep(s: FormState): FormState
  {
    if s.status == Disconnected && !s.connected then
      s.(connected := true, log := s.log + [Connect])
    else if s.status == Joined && !s.redirect then
      s.(redirect := true, log := s.log + [Navigate(EditorPath(s.user.roomId), s.user.username)])
    else if s.status == Joined && s.redirect then
      s.(redirect := false, status := Disconnected, connected := true, log := s.log + [Disconnect, Connect])
    else s
  }

  /** `n` submissions of the form in a row, with nothing happening in between. */
  function Submit(s: FormState, n: nat): FormState
    decreases n
  {
    if n == 0 then s else Submit(JoinRoomStep(s), n - 1)
  }

  // ---------------------------------------------------------------------
  // Counting what was sent
  // ---------------------------------------------------------------------

  /** How many JOIN_REQUEST events `log` holds. */
  function JoinRequests(log: seq<Effect>): nat
  {
    if log == [] then 0 else (if log[0].JoinRequest? then 1 else 0) + JoinRequests(log[1..])
  }

  /** The count of JOIN_REQUEST events adds up over an appended log. */
  lemma {:induction false} JoinRequestsAppend(a: seq<Effect>, b: seq<Effect>)
    ensures JoinRequests(a + b) == JoinRequests(a) + JoinRequests(b)
  {
    if a == [] {
      assert a + b == b;
    } else {
      assert (a + b)[1..] == a[1..] + b;
      JoinRequestsAppend(a[1..], b);
    }
  }

  // ---------------------------------------------------------------------
  // Properties of joinRoom
  // ---------------------------------------------------------------------

  /** While a join is in flight, a submission changes nothing and sends nothing. */
  lemma JoinIgnoredWhileAttempting(s: FormState)
    requires s.status == AttemptingJoin
    ensures JoinRoomStep(s) == s
  {
  }

  /**
   * A submission that fails validation sends no JOIN_REQUEST, keeps the
   * status and the user, and shows exactly one error: the first broken
   * rule.
   */
  lemma {:induction false} JoinRejectsInvalid(s: FormState)
    requires s.status != AttemptingJoin && Validate(s.user).Some?
    ensures var r := JoinRoomStep(s);
      && r.status == s.status && r.user == s.user
      && r.redirect == s.redirect && r.connected == s.connected
      && r.log == s.log + [Toast(Error, Message(Violations(s.user)[0]))]
      && JoinRequests(r.log) == JoinRequests(s.log)
  {
    var e := Validate(s.user).value;
    JoinRequestsAppend(s.log, [Toast(Error, Message(e))]);
  }

  /**
   * A valid submission from any other status moves to ATTEMPTING_JOIN,
   * keeps the earlier log and appends the loading toast followed by one
   * JOIN_REQUEST carrying the current user: exactly one more request.
   */
  lemma {:induction false} JoinSendsOnce(s: FormState)
    requires s.status != AttemptingJoin && Validate(s.user).None?
    ensures var r := JoinRoomStep(s);
      && r.status == AttemptingJoin && r.user == s.user
      && r.redirect == s.redirect && r.connected == s.connected
      && r.log == s.log + [Toast(Loading, JoiningMessage), JoinRequest(s.user)]
      && JoinRequests(r.log) == JoinRequests(s.log) + 1
      && r.log[|r.log| - 1] == JoinRequest(s.user)
  {
    var sent := [Toast(Loading, JoiningMessage), JoinRequest(s.user)];
    assert sent[1..] == [JoinRequest(s.user)];
    assert [JoinRequest(s.user)][1..] == [];
    assert JoinRequests([JoinRequest(s.user)]) == 1;
    assert JoinRequests(sent) == JoinRequests(sent[1..]);
    assert JoinRoomStep(s).log == s.log + sent;
    JoinRequestsAppend(s.log, sent);
  }

  /** Once a join is in flight, any number of further submissions are no-ops. */
  lemma {:induction false} SubmitWhileAttempting(s: FormState, n: nat)
    decreases n
    requires s.status == AttemptingJoin
    ensures Submit(s, n) == s
  {
    if n > 0 {
      SubmitWhileAttempting(JoinRoomStep(s), n - 1);
    }
  }

  /**
   * However many times the form is submitted, at most one JOIN_REQUEST is
   * sent; and with valid input from a status other than ATTEMPTING_JOIN,
   * exactly one, every submission after the first changing nothing.
   */
  lemma {:induction false} SubmitSendsAtMostOnce(s: FormState, n: nat)
    decreases n
    ensures JoinRequests(Submit(s, n).log) <= JoinRequests(s.log) + 1
    ensures Submit(s, n).user == s.user
    ensures n > 0 && s.status != AttemptingJoin && Validate(s.user).None? ==>
      Submit(s, n) == JoinRoomStep(s) && JoinRequests(Submit(s, n).log) == JoinRequests(s.log) + 1
  {
    if n > 0 {
      var s' := JoinRoomStep(s);
      if s.status == AttemptingJoin {
        SubmitWhileAttempting(s, n);
      } else if Validate(s.user).None? {
        JoinSendsOnce(s);
        SubmitWhileAttempting(s', n - 1);
      } else {
        JoinRejectsInvalid(s);
        SubmitSendsAtMostOnce(s', n - 1);
      }
    }
  }

  // ---------------------------------------------------------------------
  // Properties of the field updates and of the location effect
  // ---------------------------------------------------------------------

  /**
   * Generating a room id changes the room id only; the name is kept, and
   * the only effect is the success toast.
   */
  lemma NewRoomIdKeepsName(s: FormState, freshId: string)
    ensures var r := CreateNewRoomIdStep(s, freshId);
      && r.user == User(s.user.username, freshId)
      && r.status == s.status && r.redirect == s.redirect && r.connected == s.connected
      && r.log == s.log + [Toast(Success, RoomCreatedMessage)]
      && JoinRequests(r.log) == JoinRequests(s.log)
  {
    JoinRequestsAppend(s.log, [Toast(Success, RoomCreatedMessage)]);
  }

  /**
   * Typing into one input changes that field only, and typing the same
   * value again changes nothing more.
   */
  lemma InputChangeTargetsField(s: FormState, field: Field, value: string)
    ensures var r := InputChangeStep(s, field, value);
      && (field == Username ==> r.user == User(value, s.user.roomId))
      && (field == RoomId ==> r.user == User(s.user.username, value))
      && r.status == s.status && r.redirect == s.redirect && r.connected == s.connected && r.log == s.log
      && InputChangeStep(r, field, value) == r
  {
  }

  /**
   * The location effect fills the room id only when it is empty and a
   * non-empty one is handed over, showing the name hint exactly when the
   * name is empty; in every other case it changes nothing. It never
   * touches the name, and a second run of it changes nothing.
   */
  lemma LocationFillsEmptyRoomIdOnly(s: FormState, locationRoomId: Option<string>)
    ensures var r := LocationEffectStep(s, locationRoomId);
      && r.user.username == s.user.username
      && r.status == s.status && r.redirect == s.redirect && r.connected == s.connected
      && (s.user.roomId != [] ==> r == s)
      && (locationRoomId.None? || locationRoomId.value == [] ==> r == s)
      && (s.user.roomId == [] && locationRoomId.Some? && locationRoomId.value != [] ==>
            && r.user.roomId == locationRoomId.value
            && r.log == s.log + (if s.user.username == [] then [Toast(Success, EnterUsernameMessage)] else []))
      && LocationEffectStep(r, locationRoomId) == r
  {
  }

  // ---------------------------------------------------------------------
  // Properties of the status effect
  // ---------------------------------------------------------------------

  /** A disconnected form with a closed socket reconnects and does nothing else. */
  lemma DisconnectedReconnects(s: FormState)
    requires s.status == Disconnected && !s.connected
    ensures StatusEffectStep(s) == s.(connected := true, log := s.log + [Connect])
    ensures StatusEffectStep(StatusEffectStep(s)) == StatusEffectStep(s)
  {
  }

  /**
   * The first time the form sees JOINED it sets the marker and opens
   * `/editor/<roomId>`, keeping the status; when it sees JOINED again (the
   * participant came back to the form) it clears the marker, resets the
   * status to DISCONNECTED and disconnects then connects, in that order.
   */
  lemma FirstJoinThenReentry(s: FormState)
    requires s.status == Joined && !s.redirect
    ensures var first := StatusEffectStep(s);
      && first.status == Joined && first.redirect && first.user == s.user && first.connected == s.connected
      && first.log == s.log + [Navigate(EditorPath(s.user.roomId), s.user.username)]
    ensures var again := StatusEffectStep(StatusEffectStep(s));
      && again.status == Disconnected && !again.redirect && again.connected && again.user == s.user
      && again.log == s.log + [Navigate(EditorPath(s.user.roomId), s.user.username), Disconnect, Connect]
  {
  }

  /** One application of the re-entry rule leaves the marker absent, and the form then rests. */
  lemma ReentryClearsMarker(s: FormState)
    requires s.status == Joined && s.redirect
    ensures var r := StatusEffectStep(s);
      && !r.redirect && r.status == Disconnected && r.connected && r.user == s.user
      && r.log == s.log + [Disconnect, Connect]
      && StatusEffectStep(r) == r
  {
  }

  /**
   * Re-running the status effect with nothing else happening settles after
   * at most two runs: it never loops on connecting or navigating.
   */
  lemma StatusEffectSettles(s: FormState)
    ensures StatusEffectStep(StatusEffectStep(StatusEffectStep(s))) == StatusEffectStep(StatusEffectStep(s))
    ensures JoinRequests(StatusEffectStep(s).log) == JoinRequests(s.log)
  {
    var r := StatusEffectStep(s);
    assert exists tail :: r.log == s.log + tail && JoinRequests(tail) == 0 by {
      if s.status == Disconnected && !s.connected {
        assert r.log == s.log + [Connect];
        assert JoinRequests([Connect]) == 0;
      } else if s.status == Joined && !s.redirect {
        var nav := Navigate(EditorPath(s.user.roomId), s.user.username);
        assert r.log == s.log + [nav];
        assert JoinRequests([nav]) == 0;
      } else if s.status == Joined && s.redirect {
        assert r.log == s.log + [Disconnect, Connect];
        assert JoinRequests([Disconnect, Connect]) == 0;
      } else {
        assert r.log == s.log + [];
        assert JoinRequests([]) == 0;
      }
    }
    var tail :| r.log == s.log + tail && JoinRequests(tail) == 0;
    JoinRequestsAppend(s.log, tail);
  }

  // ---------------------------------------------------------------------
  // The form component
  // ---------------------------------------------------------------------

  /**
   * The join form with the shared state it updates in place: the status and
   * current user of the application context, the session-storage marker,
   * the socket's `connected` flag and the log of effects.
   */
  class JoinFormSession {
    var status: UserStatus
    var currentUser: User
    var redirect: bool
    var connected: bool
    var log: seq<Effect>

    /** The form's state as a value. */
    function State(): FormState
      reads this
    {
      FormState(status, currentUser, redirect, connected, log)
    }

    /** A form over the initial application context, in a tab whose marker and socket are given. */
    constructor (redirectMarker: bool, socketConnected: bool)
      ensures State() == Init(redirectMarker, socketConnected)
    {
      status := Initial;
      currentUser := User("", "");
      redirect := redirectMarker;
      connected := socketConnected;
      log := [];
    }

    /** createNewRoomId, with the generated identifier `freshId` as a parameter. */
    method CreateNewRoomId(freshId: string)
      modifies this
      ensures currentUser == User(old(currentUser.username), freshId)
      ensures status == old(status) && redirect == old(redirect) && connected == old(connected)
      ensures log == old(log) + [Toast(Success, RoomCreatedMessage)]
      ensures State() == CreateNewRoomIdStep(old(State()), freshId)
    {
      currentUser := currentUser.(roomId := freshId);
      log := log + [Toast(Success, RoomCreatedMessage)];
    }

    /** handleInputChanges for the input named `field`. */
    method HandleInputChange(field: Field, value: string)
      modifies this
      ensures field == Username ==> currentUser == User(value, old(currentUser.roomId))
      ensures field == RoomId ==> currentUser == User(old(currentUser.username), value)
      ensures status == old(status) && redirect == old(redirect) && connected == old(connected)
      ensures log == old(log)
      ensures State() == InputChangeStep(old(State()), field, value)
    {
      match field
      case Username => currentUser := currentUser.(username := value);
      case RoomId => currentUser := currentUser.(roomId := value);
    }

    /** validateForm: the verdict, and one error toast when it is negative. */
    method ValidateForm() returns (ok: bool)
      modifies this`log
      ensures ok <==> Utf16Length(currentUser.username) >= MinUsernameLength && Utf16Length(currentUser.roomId) >= MinRoomIdLength
      ensures ok ==> log == old(log)
      ensures !ok ==> log == old(log) + [Toast(Error, Message(Violations(currentUser)[0]))]
    {
      if Utf16Length(currentUser.username) == 0 {
        log := log + [Toast(Error, Message(EmptyUsername))];
        return false;
      } else if Utf16Length(currentUser.roomId) == 0 {
        log := log + [Toast(Error, Message(EmptyRoomId))];
        return false;
      } else if Utf16Length(currentUser.roomId) < MinRoomIdLength {
        log := log + [Toast(Error, Message(ShortRoomId))];
        return false;
      } else if Utf16Length(currentUser.username) < MinUsernameLength {
        log := log + [Toast(Error, Message(ShortUsername))];
        return false;
      }
      return true;
    }

    /** joinRoom: the submit handler of the form. */
    method JoinRoom()
      modifies this
      ensures old(status) == AttemptingJoin ==> State() == old(State())
      ensures currentUser == old(currentUser) && redirect == old(redirect) && connected == old(connected)
      ensures old(status) != AttemptingJoin && Validate(old(currentUser)).Some? ==>
        status == old(status) && JoinRequests(log) == JoinRequests(old(log))
      ensures old(status) != AttemptingJoin && Validate(old(currentUser)).None? ==>
        status == AttemptingJoin && log == old(log) + [Toast(Loading, JoiningMessage), JoinRequest(old(currentUser))]
      ensures State() == JoinRoomStep(old(State()))
    {
      if status == AttemptingJoin {
        return;
      }
      var ok := ValidateForm();
      if !ok {
        JoinRejectsInvalid(old(State()));
        return;
      }
      log := log + [Toast(Loading, JoiningMessage)];
      status := AttemptingJoin;
      log := log + [JoinRequest(currentUser)];
    }

    /** The effect that runs when the current user or the location state changes. */
    method LocationEffect(locationRoomId: Option<string>)
      modifies this
      ensures currentUser.username == old(currentUser.username)
      ensures |old(currentUser.roomId)| > 0 ==> State() == old(State())
      ensures status == old(status) && redirect == old(redirect) && connected == old(connected)
      ensures State() == LocationEffectStep(old(State()), locationRoomId)
    {
      if Utf16Length(currentUser.roomId) > 0 {
        return;
      }
      if locationRoomId.Some? && |locationRoomId.value| > 0 {
        var hadName := Utf16Length(currentUser.username) > 0;
        currentUser := currentUser.(roomId := locationRoomId.value);
        if !hadName {
          log := log + [Toast(Success, EnterUsernameMessage)];
        }
      }
    }

    /** The effect that runs when the status changes. */
    method StatusEffect()
      modifies this
      ensures currentUser == old(currentUser)
      ensures old(status) == Disconnected && !old(connected) ==>
        connected && log == old(log) + [Connect] && status == old(status) && redirect == old(redirect)
      ensures old(status) == Joined && !old(redirect) ==>
        redirect && status == Joined && connected == old(connected)
        && log == old(log) + [Navigate(EditorPath(currentUser.roomId), currentUser.username)]
      ensures old(status) == Joined && old(redirect) ==>
        !redirect && status == Disconnected && connected && log == old(log) + [Disconnect, Connect]
      ensures State() == StatusEffectStep(old(State()))
    {
      if status == Disconnected && !connected {
        connected := true;
        log := log + [Connect];
        return;
      }
      var isRedirect := redirect;
      if status == Joined && !isRedirect {
        var username := currentUser.username;
        redirect := true;
        log := log + [Navigate(EditorPath(currentUser.roomId), username)];
      } else if status == Joined && isRedirect {
        redirect := false;
        status := Disconnected;
        connected := false;
        log := log + [Disconnect];
        connected := true;
        log := log + [Connect];
      }
    }
  }
}
