# Join form and editor debounce of a collaborative code editor, in Dafny

This project models two pieces of the browser client of a collaborative
code-editing workspace, where participants join a shared room and edit its
files together.

* **The join form** (`JoinForm`, from
  `client/src/components/forms/FormComponent.tsx`). It validates the name
  and room id with a fixed error precedence. It sends `JOIN_REQUEST` at most
  once per join attempt. It updates one field of the current user at a time.
  Once the session is `JOINED`, it either opens `/editor/<roomId>` (the first
  time in the tab, recorded by the session-storage marker `redirect`) or
  resets the status to `DISCONNECTED` and cycles the socket (on re-entry).
  The socket is modelled by its `connected` flag. Every emission, connect,
  disconnect, navigation and toast is appended to a log of `Effect`s.
* **The editor** (`CodeEditor`, from
  `client/src/components/editor/Editor.tsx`). Every text change overwrites
  the active file's content. It emits `TYPING_START` and then
  `FILE_UPDATED`, cancels the pending pause timer and schedules one
  `TYPING_PAUSE` 1000 ms later. Time is an abstract millisecond clock and the
  timer handle is the deadline of the pending pause. `AdvanceClock` stands
  for the browser's timer queue. The module also holds the collaborator
  filter `filteredUsers` and the list of editor extensions.
* `FileTypes` holds the file-system node record of `client/src/types/file.ts`.
  `Wrappers` holds `Option`.

Each source file is modelled twice. Transition functions on a state value
(`JoinRoomStep`, `StatusEffectStep`, `CodeChange`, `Elapse`, …) are the
specification, and the lemmas about them carry the properties. The classes
`JoinFormSession` and `EditorSession` are the components themselves. They
update their fields step by step, and each method is proved to perform its
transition. `EditorSession` also keeps the debounce invariant `Debounced`.

Two consequences of the code are worth stating on their own:

* `joinRoom` rejects only `ATTEMPTING_JOIN`, so a valid submission from
  `JOINED` or `INITIAL` sends a `JOIN_REQUEST` too (`JoinSendsOnce`).
* Lengths are JavaScript `length`s, counted in UTF-16 code units
  (`Utf16Length`): a character beyond U+FFFF, such as an emoji, counts
  twice, so a name of one emoji and one letter passes validation
  (`AstralNameIsLongEnough`).

## Model

| member | source | states |
|---|---|---|
| `JoinForm.Utf16LengthBounds` | client/src/components/forms/FormComponent.tsx:43-52 | The `length` the form compares (UTF-16 code units) is zero exactly for the empty string and lies between the number of characters and twice that. |
| `JoinForm.AstralNameIsLongEnough` | client/src/components/forms/FormComponent.tsx:52 | A name made of one character beyond U+FFFF and one letter is three code units long and, with room id `room1`, passes validation. |
| `JoinForm.Validate` | client/src/components/forms/FormComponent.tsx:42-57 | Valid exactly when the name has at least 3 UTF-16 code units and the room id at least 5, so the emptiness checks are subsumed. Otherwise the reported error is the first element of `Violations`, the list of every broken rule in precedence order. |
| `JoinForm.ErrorPrecedence` | client/src/components/forms/FormComponent.tsx:43-54 | An empty name is always the reported error. An empty room id is reported only with a non-empty name. A short room id is reported only when both are non-empty. A short name is reported only when the room id is long enough. |
| `JoinForm.JoinFormSession.ValidateForm` | client/src/components/forms/FormComponent.tsx:42-57 | Returns true exactly when both lengths (in UTF-16 code units) are met. On failure it appends exactly one error toast, carrying the first broken rule's message. On success it appends nothing. |
| `JoinForm.JoinIgnoredWhileAttempting` | client/src/components/forms/FormComponent.tsx:61 | While `ATTEMPTING_JOIN`, a submission leaves the whole state unchanged, so nothing is emitted. |
| `JoinForm.JoinRejectsInvalid` | client/src/components/forms/FormComponent.tsx:62 | An invalid submission keeps the status, user, marker and socket. It adds no `JOIN_REQUEST` and appends exactly one error toast for the first broken rule. |
| `JoinForm.JoinSendsOnce` | client/src/components/forms/FormComponent.tsx:59-66 | A valid submission from any status other than `ATTEMPTING_JOIN` moves to `ATTEMPTING_JOIN`. The earlier log is kept and exactly the loading toast and then one `JOIN_REQUEST` carrying the current user are appended. |
| `JoinForm.SubmitWhileAttempting` | client/src/components/forms/FormComponent.tsx:61 | Once a join is in flight, any number of further submissions change nothing. |
| `JoinForm.SubmitSendsAtMostOnce` | client/src/components/forms/FormComponent.tsx:59-66 | Any number of submissions in a row add at most one `JOIN_REQUEST` and never change the user. With valid input from another status they add exactly one, and the result equals that of a single submission. |
| `JoinForm.JoinFormSession.JoinRoom` | client/src/components/forms/FormComponent.tsx:59-66 | The submit handler performs `JoinRoomStep`. It is a no-op while attempting. On invalid input the status is kept and no request is added. On valid input it appends the loading toast and then `JOIN_REQUEST(currentUser)`, and the status becomes `ATTEMPTING_JOIN`. |
| `JoinForm.NewRoomIdKeepsName` | client/src/components/forms/FormComponent.tsx:30-34 | Generating a room id replaces the room id only. It keeps the name, status, marker and socket, and appends exactly the success toast. |
| `JoinForm.JoinFormSession.CreateNewRoomId` | client/src/components/forms/FormComponent.tsx:30-34 | The room id becomes the generated identifier and the name is kept. One success toast is appended. |
| `JoinForm.InputChangeTargetsField` | client/src/components/forms/FormComponent.tsx:36-40 | Typing into an input changes that field only and logs nothing. Typing the same value again changes nothing. |
| `JoinForm.JoinFormSession.HandleInputChange` | client/src/components/forms/FormComponent.tsx:36-40 | The named field takes the value, and the other field, the status, the marker, the socket and the log are kept. |
| `JoinForm.LocationFillsEmptyRoomIdOnly` | client/src/components/forms/FormComponent.tsx:68-76 | A non-empty room id handed over in the location state fills the room id only when it is empty, appending the name hint exactly when the name is empty. In every other case the state is unchanged. The name is never touched, and a second run changes nothing. |
| `JoinForm.JoinFormSession.LocationEffect` | client/src/components/forms/FormComponent.tsx:68-76 | Performs `LocationEffectStep`. It keeps the name, and when the room id is already set the state is unchanged. |
| `JoinForm.DisconnectedReconnects` | client/src/components/forms/FormComponent.tsx:79-82 | When `DISCONNECTED` with a closed socket, the effect connects and does nothing else. A second run changes nothing. |
| `JoinForm.FirstJoinThenReentry` | client/src/components/forms/FormComponent.tsx:83-98 | On the first `JOINED` the effect sets the marker and navigates to `/editor/<roomId>` with the name, keeping the status. On the next run it clears the marker, sets `DISCONNECTED` and logs disconnect then connect. |
| `JoinForm.ReentryClearsMarker` | client/src/components/forms/FormComponent.tsx:93-97 | On `JOINED` with the marker present, one run clears the marker, sets `DISCONNECTED`, leaves the socket connected and appends `Disconnect, Connect` in that order. After that the effect is a no-op. |
| `JoinForm.StatusEffectSettles` | client/src/components/forms/FormComponent.tsx:78-99 | Re-running the status effect reaches a fixed point after at most two runs. It never sends a `JOIN_REQUEST`. |
| `JoinForm.JoinFormSession.StatusEffect` | client/src/components/forms/FormComponent.tsx:78-99 | Performs `StatusEffectStep` and never changes the user. The three branches (reconnect, first navigation, re-entry reset with disconnect before connect) are stated field by field. |
| `JoinForm.JoinFormSession.constructor` | client/src/context/AppContext.tsx:28-32 | The form starts `INITIAL` with an empty name and room id, and with nothing logged. |
| `CodeEditor.NoActiveFileNoOp` | client/src/components/editor/Editor.tsx:64 | Without an active file a change leaves the state unchanged: no emission, same file, same timer. |
| `CodeEditor.CodeChangeAnnounces` | client/src/components/editor/Editor.tsx:63-83 | With an active file, only the content becomes `code`; id, name, type, children and open flag are kept. Exactly `TYPING_START(cursor)` then `FILE_UPDATED(id, code)` are appended, with no pause. Exactly one pause is left pending, at now + 1000. |
| `CodeEditor.CodeChangeIdempotent` | client/src/components/editor/Editor.tsx:66-67 | Applying the same code twice leaves the same active file as applying it once. |
| `CodeEditor.ElapseBeforeDeadline` | client/src/components/editor/Editor.tsx:78-81 | Before the pending pause falls due, the passing of time sends nothing and keeps the timer. |
| `CodeEditor.InitialDebounced` | client/src/components/editor/Editor.tsx:52 | A freshly mounted editor, which has sent nothing and has no live timer, satisfies the debounce invariant. |
| `CodeEditor.CodeChangeDebounced` | client/src/components/editor/Editor.tsx:70-82 | A change keeps the debounce invariant (`Debounced`). Events stay in clock order and none is stamped in the future. Every pause directly follows a `FILE_UPDATED` sent exactly 1000 ms earlier. A pending pause is due 1000 ms after the last update. |
| `CodeEditor.PausesSeparatedByUpdate` | client/src/components/editor/Editor.tsx:76-82 | In any state satisfying the debounce invariant, between two pauses sent there is a `FILE_UPDATED`: one quiet interval never yields two pauses. |
| `CodeEditor.ElapseDebounced` | client/src/components/editor/Editor.tsx:78-81 | The timer firing, or time passing without it, keeps the debounce invariant. |
| `CodeEditor.BurstSendsNoPause` | client/src/components/editor/Editor.tsx:76-82 | During a burst of keystrokes less than 1000 ms apart the earlier log is kept and two events per keystroke are appended, none of them a pause. Exactly one pause is then pending, due 1000 ms after the last keystroke. |
| `CodeEditor.BurstThenQuietSendsOnePause` | client/src/components/editor/Editor.tsx:76-82 | A burst followed by at least 1000 ms of quiet sends exactly one pause, stamped last keystroke + 1000. Nothing is left pending, so further quiet sends none. |
| `CodeEditor.BurstThenShortWaitSendsNothing` | client/src/components/editor/Editor.tsx:76-82 | Less than 1000 ms of quiet after a burst sends nothing and keeps the pending pause. |
| `CodeEditor.EditorSession.OnCodeChange` | client/src/components/editor/Editor.tsx:63-83 | Performs `CodeChange` and keeps the debounce invariant. It is a no-op without an active file. Otherwise it writes the content, appends the two announcements and replaces the timer by one due at now + 1000. |
| `CodeEditor.EditorSession.AdvanceClock` | client/src/components/editor/Editor.tsx:78-81 | The clock advances. A timer that falls due appends one `TYPING_PAUSE` stamped with its deadline and is spent; otherwise nothing is sent. The debounce invariant is kept. |
| `CodeEditor.EditorSession.constructor` | client/src/components/editor/Editor.tsx:52 | The editor starts with no live timer (the initial handle does nothing), nothing sent and the debounce invariant established. |
| `CodeEditor.FilteredUsers` | client/src/components/editor/Editor.tsx:55-58 | A participant is in the result exactly when it is in the list and its name differs from the local participant's. |
| `CodeEditor.FilteredUsersAppend` | client/src/components/editor/Editor.tsx:55-58 | Filtering distributes over concatenation, so the original order is kept. |
| `CodeEditor.FilteredUsersKeepsOthers` | client/src/components/editor/Editor.tsx:55-58 | When nobody shares the local participant's name, the list is returned unchanged. |
| `CodeEditor.Extensions` | client/src/components/editor/Editor.tsx:92-113 | The five fixed extensions come first, the tooltips carrying the filtered participants. The language support is appended exactly when the lookup succeeds, and the warning toast is shown exactly when it fails. |

## Left out

- None of the modelled files sets the status to `JOINED` or reports connection loss; the code that does is not part of this model. The model takes the status as it finds it.
- The socket handshake is modelled as immediate: `connect()` sets `connected`, and `disconnect()` clears it.
- React state updates are modelled as immediate and in program order. Re-renders, stale closures over `timeOut` and `activeFile`, and effect scheduling are not modelled; each effect is a method the caller invokes.
- `uuidv4` is a parameter (`freshId`). Focusing the name input and the toast durations are UI and are left out.
- `handleInputChanges` is modelled for the two inputs the form renders (`roomId`, `username`). Any other input name would add a new key to the record in the source.
- `RemoteUser` comes from a types file that is not part of this model. `filteredUsers` reads only its `username`; the `socketId` field is this model's stand-in for the record's other fields.
- `loadLanguage` is a parameter: the result of the lookup for the chosen language. CodeMirror rendering, themes, tooltips and `usePageEvents` are UI.
- The cursor position is an optional integer, since optional chaining can leave it undefined. `setTimeout(…, 1000)` promises a delay of at least 1000 ms; the model lets the timer fire exactly at its deadline and does not model timer resolution or clamping.
- The file-context operations (`createFile`, `renameFile`, `deleteDirectory`, …) are implemented in a file that is not part of this model. Only the `FileSystemItem` record is modelled.
