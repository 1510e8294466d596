/** The chat-session handlers of the application, as pure functions from the
    store's state (`history` plus the active chat id) to its next state, with
    the lemmas that say what each handler does to the sessions. */
module Sessions {
  import opened Types
  import opened Text

  /** The two pieces of state the handlers read and write. */
  datatype Chats = Chats(history: seq<ChatSession>, active: Option<string>)

  /** The message a saved edit replaces, recorded when the edit starts. */
  datatype EditState = EditState(chatId: string, messageIndex: nat, text: string)

  /** The fields the identification reply was parsed into, each absent when
      the parsed object lacks it or gives it a value of the wrong type. */
  datatype ParsedReply = ParsedReply(plantName: Option<string>, confidence: Option<real>, careInstructions: Option<string>)

  const NewChatTitle := "New Chat"
  const PlantAnalysisTitle := "Plant Analysis"
  const ImageCaption := "Analyze this plant:"
  const TitleLength := 35

  // ---------------------------------------------------------------------
  // Lookup, map and filter over the session list

  predicate HasId(h: seq<ChatSession>, id: string) {
    exists i :: 0 <= i < |h| && h[i].id == id
  }

  /** Every session has a non-empty id, as `chat_<timestamp>` ids do. */
  predicate IdsNonEmpty(h: seq<ChatSession>) {
    forall i :: 0 <= i < |h| ==> h[i].id != ""
  }

  /** `history.findIndex(c => c.id === id)`, absent when no session matches. */
  function FindIndex(h: seq<ChatSession>, id: string): (k: Option<nat>)
    ensures k.None? <==> !HasId(h, id)
    ensures k.Some? ==> k.value < |h| && h[k.value].id == id
    ensures k.Some? ==> forall j :: 0 <= j < k.value ==> h[j].id != id
  {
    if h == [] then None
    else if h[0].id == id then Some(0)
    else match FindIndex(h[1..], id) {
      case None => None
      case Some(k) => Some(k + 1)
    }
  }

  /** `history.find(c => c.id === id)`: the first session with that id. */
  function Find(h: seq<ChatSession>, id: string): Option<ChatSession> {
    match FindIndex(h, id) {
      case None => None
      case Some(k) => Some(h[k])
    }
  }

  /** `prev.map(chat => chat.id === id ? f(chat) : chat)`. */
  function MapWhere(h: seq<ChatSession>, id: string, f: ChatSession -> ChatSession): (r: seq<ChatSession>)
    ensures |r| == |h|
    ensures forall i :: 0 <= i < |h| ==> r[i] == if h[i].id == id then f(h[i]) else h[i]
  {
    seq(|h|, i requires 0 <= i < |h| => if h[i].id == id then f(h[i]) else h[i])
  }

  /** A map that touches no session changes nothing. */
  lemma MapWhereAbsent(h: seq<ChatSession>, id: string, f: ChatSession -> ChatSession)
    requires !HasId(h, id)
    ensures MapWhere(h, id, f) == h
  {
    var r := MapWhere(h, id, f);
    forall i | 0 <= i < |h| ensures r[i] == h[i] {
      assert h[i].id != id;
    }
  }

  /** Appends `m` to the messages of every session with id `id`. */
  function AppendTo(h: seq<ChatSession>, id: string, m: ChatMessage): seq<ChatSession> {
    MapWhere(h, id, (s: ChatSession) => s.(messages := s.messages + [m]))
  }

  /** Replaces the messages of every session with id `id`. */
  function SetMessages(h: seq<ChatSession>, id: string, ms: seq<ChatMessage>): seq<ChatSession> {
    MapWhere(h, id, (s: ChatSession) => s.(messages := ms))
  }

  /** Renames every session with id `id`. */
  function Retitle(h: seq<ChatSession>, id: string, title: string): seq<ChatSession> {
    MapWhere(h, id, (s: ChatSession) => s.(title := title))
  }

  /** `history.filter(c => c.id !== id)`. */
  function Remove(h: seq<ChatSession>, id: string): (r: seq<ChatSession>)
    ensures forall s :: s in r <==> s in h && s.id != id
    ensures !HasId(r, id)
    ensures |r| <= |h|
    ensures !HasId(h, id) ==> r == h
  {
    if h == [] then []
    else if h[0].id == id then Remove(h[1..], id)
    else
      var rest := Remove(h[1..], id);
      assert [h[0]] + h[1..] == h;
      [h[0]] + rest
  }

  /** The filter keeps order and multiplicity: it works piece by piece. */
  lemma {:induction false} RemoveAppend(a: seq<ChatSession>, b: seq<ChatSession>, id: string)
    ensures Remove(a + b, id) == Remove(a, id) + Remove(b, id)
  {
    if a == [] {
      assert a + b == b;
    } else {
      assert (a + b)[0] == a[0] && (a + b)[1..] == a[1..] + b;
      RemoveAppend(a[1..], b, id);
    }
  }

  /** On one session the filter keeps it exactly when its id differs. */
  lemma RemoveOne(x: ChatSession, id: string)
    ensures Remove([x], id) == if x.id == id then [] else [x]
  {
    assert [x][1..] == [];
  }

  // ---------------------------------------------------------------------
  // New chat, delete, repair of the active id

  /** `handleNewChat`: an empty "New Chat" session in front, selected. */
  function NewChat(c: Chats, newId: string): (r: Chats)
    ensures r.active == Some(newId)
    ensures |r.history| == |c.history| + 1 && r.history[1..] == c.history
    ensures r.history[0].id == newId && r.history[0].messages == []
  {
    Chats([ChatSession(newId, NewChatTitle, [])] + c.history, Some(newId))
  }

  /** A new chat adds one session, keeps every other one in place, and the
      repair effect keeps it selected. */
  lemma NewChatSelectsIt(c: Chats, newId: string)
    ensures |NewChat(c, newId).history| == |c.history| + 1
    ensures NewChat(c, newId).history[1..] == c.history
    ensures Find(NewChat(c, newId).history, newId) == Some(ChatSession(newId, NewChatTitle, []))
    ensures Repair(NewChat(c, newId).history, NewChat(c, newId).active) == Some(newId)
  {
    var h := NewChat(c, newId).history;
    assert h[0].id == newId;
  }

  /** `handleDeleteChat`: removes the sessions with that id once the user confirms. */
  function Delete(c: Chats, id: string, confirmed: bool): (r: Chats)
    ensures r.active == c.active
    ensures confirmed ==> forall s :: s in r.history <==> s in c.history && s.id != id
    ensures !confirmed ==> r == c
  {
    if confirmed then Chats(Remove(c.history, id), c.active) else c
  }

  /** The repair effect: an active id that names no session is replaced by
      the first session's id, or by null when there is none (an empty id is
      falsy and also gives null). */
  function Repair(h: seq<ChatSession>, active: Option<string>): (r: Option<string>)
    ensures r.Some? ==> HasId(h, r.value)
    ensures active.Some? && HasId(h, active.value) ==> r == active
    ensures r.None? ==> h == [] || h[0].id == ""
    ensures !(active.Some? && HasId(h, active.value)) && |h| > 0 && h[0].id != "" ==> r == Some(h[0].id)
  {
    if active.Some? && HasId(h, active.value) then active
    else if |h| > 0 && h[0].id != "" then Some(h[0].id)
    else None
  }

  /** Filtering out `id` from sessions that all carry it leaves nothing. */
  lemma RemoveAll(a: seq<ChatSession>, id: string)
    requires forall j :: 0 <= j < |a| ==> a[j].id == id
    ensures Remove(a, id) == []
  {
  }

  /** The first survivor of the filter is the first session with another id. */
  lemma RemoveFirstSurvivor(h: seq<ChatSession>, id: string, k: nat)
    requires k < |h| && h[k].id != id
    requires forall j :: 0 <= j < k ==> h[j].id == id
    ensures Remove(h, id) == [h[k]] + Remove(h[k + 1..], id)
  {
    assert h == h[..k] + ([h[k]] + h[k + 1..]);
    RemoveAppend(h[..k], [h[k]] + h[k + 1..], id);
    RemoveAll(h[..k], id);
    RemoveAppend([h[k]], h[k + 1..], id);
    RemoveOne(h[k], id);
  }

  /** Deleting the active session and repairing selects the first session
      that survives the filter: the one at `k`, when every session before it
      carries the deleted id. */
  lemma DeleteActiveSelectsNext(c: Chats, k: nat)
    requires c.active.Some? && IdsNonEmpty(c.history)
    requires k < |c.history| && c.history[k].id != c.active.value
    requires forall j :: 0 <= j < k ==> c.history[j].id == c.active.value
    ensures Repair(Delete(c, c.active.value, true).history, c.active) == Some(c.history[k].id)
  {
    RemoveFirstSurvivor(c.history, c.active.value, k);
  }

  /** Deleting the active session when no other session is left leaves no
      selection. */
  lemma DeleteLastClearsSelection(c: Chats)
    requires c.active.Some?
    requires forall j :: 0 <= j < |c.history| ==> c.history[j].id == c.active.value
    ensures Repair(Delete(c, c.active.value, true).history, c.active) == None
  {
    RemoveAll(c.history, c.active.value);
  }

  /** With non-empty ids, the repaired id is null exactly when there is no session. */
  lemma RepairNullIffEmpty(h: seq<ChatSession>, active: Option<string>)
    requires IdsNonEmpty(h)
    ensures Repair(h, active).None? <==> h == []
  {
    if h != [] {
      assert h[0].id != "";
    }
  }

  /** Running the effect again changes nothing. */
  lemma RepairIdempotent(h: seq<ChatSession>, active: Option<string>)
    ensures Repair(h, Repair(h, active)) == Repair(h, active)
  {
  }

  // ---------------------------------------------------------------------
  // Sending a message: new session or append

  /** The title of a session opened by a text message. */
  function Title(input: string): (t: string)
    ensures |input| <= TitleLength ==> t == input
    ensures |input| > TitleLength ==> |t| == TitleLength + 3 && t[..TitleLength] == input[..TitleLength] && t[TitleLength..] == "..."
  {
    if |input| > TitleLength then input[..TitleLength] + "..." else input
  }

  /** The active session exists and has no messages yet. */
  predicate ActiveIsEmpty(h: seq<ChatSession>, id: string) {
    Find(h, id).Some? && |Find(h, id).value.messages| == 0
  }

  /** A message opens a new session when no chat is active or the active
      one is still empty. A dangling active id opens none. */
  predicate NeedsNew(h: seq<ChatSession>, active: Option<string>) {
    !Truthy(active) || ActiveIsEmpty(h, active.value)
  }

  /** The new session replaces the empty active one. */
  predicate ReplacesPlaceholder(h: seq<ChatSession>, active: Option<string>) {
    Truthy(active) && ActiveIsEmpty(h, active.value)
  }

  /** The state after the user's message is placed, with the id of the
      session it went to. */
  datatype Posted = Posted(history: seq<ChatSession>, active: Option<string>, target: string)

  /** The session logic shared by the text and image handlers. */
  function Post(h: seq<ChatSession>, active: Option<string>, msg: ChatMessage, title: string, newId: string): (p: Posted)
    ensures NeedsNew(h, active) ==> p.target == newId && p.active == Some(newId)
    ensures !NeedsNew(h, active) ==> p.target == active.value && p.active == active && |p.history| == |h|
    ensures NeedsNew(h, active) ==> |p.history| > 0 && p.history[0] == ChatSession(newId, title, [msg])
  {
    if NeedsNew(h, active) then
      var rest := if ReplacesPlaceholder(h, active) then Remove(h, active.value) else h;
      Posted([ChatSession(newId, title, [msg])] + rest, Some(newId), newId)
    else
      Posted(AppendTo(h, active.value, msg), active, active.value)
  }

  /** Opening a session: exactly one new session holding only the message
      goes in front and is selected; the empty placeholder, if any, goes;
      every other session stays. */
  lemma PostOpensSession(h: seq<ChatSession>, active: Option<string>, msg: ChatMessage, title: string, newId: string)
    requires NeedsNew(h, active)
    requires !HasId(h, newId)
    ensures Post(h, active, msg, title, newId).history[0] == ChatSession(newId, title, [msg])
    ensures Post(h, active, msg, title, newId).active == Some(newId)
    ensures !HasId(Post(h, active, msg, title, newId).history[1..], newId)
    ensures Post(h, active, msg, title, newId).history[1..]
         == if ReplacesPlaceholder(h, active) then Remove(h, active.value) else h
    ensures forall s :: s in Post(h, active, msg, title, newId).history[1..] <==>
              s in h && !(ReplacesPlaceholder(h, active) && s.id == active.value)
    ensures ReplacesPlaceholder(h, active) ==> !HasId(Post(h, active, msg, title, newId).history, active.value)
    ensures !ReplacesPlaceholder(h, active) ==> |Post(h, active, msg, title, newId).history| == |h| + 1
  {
    var p := Post(h, active, msg, title, newId);
    var rest := if ReplacesPlaceholder(h, active) then Remove(h, active.value) else h;
    assert p.history[1..] == rest;
    if ReplacesPlaceholder(h, active) {
      assert active.value != newId;
    }
  }

  /** Appending: the message goes to the end of the active session, nothing
      else changes, and the session count is unchanged. */
  lemma PostAppends(h: seq<ChatSession>, active: Option<string>, msg: ChatMessage, title: string, newId: string)
    requires !NeedsNew(h, active)
    ensures Post(h, active, msg, title, newId).active == active
    ensures |Post(h, active, msg, title, newId).history| == |h|
    ensures forall i :: 0 <= i < |h| ==>
              Post(h, active, msg, title, newId).history[i] ==
                if h[i].id == active.value then h[i].(messages := h[i].messages + [msg]) else h[i]
  {
  }

  /** The reply is appended to the chat id active when the handler ran, not
      to the session it just opened; a null id matches no session. */
  function ReplyTo(h: seq<ChatSession>, target: Option<string>, m: ChatMessage): (r: seq<ChatSession>)
    ensures |r| == |h|
    ensures forall i :: 0 <= i < |h| ==>
              r[i] == if target.Some? && h[i].id == target.value then h[i].(messages := h[i].messages + [m]) else h[i]
  {
    if target.Some? then AppendTo(h, target.value, m) else h
  }

  /** `handleSendMessage` followed by the reply: `context` is the weather
      sentence, or "" when none is prepended; `loading` says a request is
      already in flight. */
  function Send(c: Chats, input: string, context: string, loading: bool, newId: string, reply: string): (r: Chats)
    ensures IsBlank(input) || loading ==> r == c
    ensures !IsBlank(input) && !loading ==>
              r.active == if NeedsNew(c.history, c.active) then Some(newId) else c.active
  {
    if IsBlank(input) || loading then c
    else
      var p := Post(c.history, c.active, ChatMessage(User, Text(context + input)), Title(input), newId);
      Chats(ReplyTo(p.history, c.active, ChatMessage(Model, Text(reply))), p.active)
  }

  /** A blank input, or one sent while a request is in flight, changes nothing. */
  lemma SendGuard(c: Chats, input: string, context: string, loading: bool, newId: string, reply: string)
    requires IsBlank(input) || loading
    ensures Send(c, input, context, loading, newId, reply) == c
  {
  }

  /** On a message that opens a session, the reply reaches no session: the
      new one holds the user's message alone, and the old target is either
      null or was the placeholder that has just been removed. */
  lemma FirstTextReplyDropped(c: Chats, input: string, context: string, newId: string, reply: string)
    requires !IsBlank(input)
    requires NeedsNew(c.history, c.active)
    requires IdsNonEmpty(c.history) && newId != "" && !HasId(c.history, newId)
    ensures Send(c, input, context, false, newId, reply).history
         == Post(c.history, c.active, ChatMessage(User, Text(context + input)), Title(input), newId).history
    ensures Send(c, input, context, false, newId, reply).history[0]
         == ChatSession(newId, Title(input), [ChatMessage(User, Text(context + input))])
  {
    var msg := ChatMessage(User, Text(context + input));
    var p := Post(c.history, c.active, msg, Title(input), newId);
    PostOpensSession(c.history, c.active, msg, Title(input), newId);
    if c.active.Some? {
      var id := c.active.value;
      if !ReplacesPlaceholder(c.history, c.active) {
        assert id == "";
        forall i | 0 <= i < |p.history| ensures p.history[i].id != id {
          if i > 0 {
            assert p.history[i] == c.history[i - 1];
          }
        }
      }
      MapWhereAbsent(p.history, id, (s: ChatSession) => s.(messages := s.messages + [ChatMessage(Model, Text(reply))]));
    }
  }

  /** On an active, non-empty session, both the message and the reply are
      appended to it, in that order. */
  lemma SendAppendsBoth(c: Chats, input: string, context: string, newId: string, reply: string)
    requires !IsBlank(input)
    requires !NeedsNew(c.history, c.active)
    ensures Send(c, input, context, false, newId, reply).active == c.active
    ensures |Send(c, input, context, false, newId, reply).history| == |c.history|
    ensures forall i :: 0 <= i < |c.history| ==>
              Send(c, input, context, false, newId, reply).history[i] ==
                if c.history[i].id == c.active.value
                then c.history[i].(messages := c.history[i].messages
                                   + [ChatMessage(User, Text(context + input)), ChatMessage(Model, Text(reply))])
                else c.history[i]
  {
    var msg := ChatMessage(User, Text(context + input));
    var r := Send(c, input, context, false, newId, reply).history;
    PostAppends(c.history, c.active, msg, Title(input), newId);
    forall i | 0 <= i < |c.history| && c.history[i].id == c.active.value
      ensures r[i].messages == c.history[i].messages + [msg, ChatMessage(Model, Text(reply))]
    {
      assert c.history[i].messages + [msg] + [ChatMessage(Model, Text(reply))]
          == c.history[i].messages + [msg, ChatMessage(Model, Text(reply))];
    }
  }

  // ---------------------------------------------------------------------
  // Image upload and identification

  /** The check a parsed reply must pass to become an identification:
      a truthy name, a numeric confidence and truthy care instructions. */
  predicate IsIdentification(parsed: Option<ParsedReply>)
    ensures IsIdentification(parsed) ==> parsed.Some? && parsed.value.plantName.Some? && parsed.value.plantName.value != ""
  {
    parsed.Some? && Truthy(parsed.value.plantName) && parsed.value.confidence.Some?
    && Truthy(parsed.value.careInstructions)
  }

  /** The model message for the reply: the identification record, or the
      raw reply text when parsing failed or the check did not pass. */
  function ReplyContent(responseText: string, parsed: Option<ParsedReply>): (r: Content)
    ensures r.PlantIdentification? <==> IsIdentification(parsed)
    ensures r.PlantIdentification? ==> r.record.userFeedback.None? && r.record.correctedName.None?
    ensures !IsIdentification(parsed) ==> r == Text(responseText)
  {
    if IsIdentification(parsed) then
      var p := parsed.value;
      PlantIdentification(Identification(p.plantName.value, p.confidence.value, p.careInstructions.value, None, None))
    else Text(responseText)
  }

  /** `handleImageUpload`: `dataUrl` is absent when no file was chosen; the
      reply goes to the session the image went to, renamed after the plant
      when the reply is an identification. */
  function Upload(c: Chats, dataUrl: Option<string>, loading: bool, newId: string,
                  responseText: string, parsed: Option<ParsedReply>): (r: Chats)
    ensures dataUrl.None? || loading ==> r == c
    ensures dataUrl.Some? && !loading ==>
              r.active == if NeedsNew(c.history, c.active) then Some(newId) else c.active
  {
    if dataUrl.None? || loading then c
    else
      var msg := ChatMessage(User, ImagePrompt(ImageCaption, dataUrl.value));
      var p := Post(c.history, c.active, msg, PlantAnalysisTitle, newId);
      var h := if IsIdentification(parsed) then Retitle(p.history, p.target, parsed.value.plantName.value) else p.history;
      Chats(AppendTo(h, p.target, ChatMessage(Model, ReplyContent(responseText, parsed))), p.active)
  }

  /** An image that opens a session yields one session in front, named after
      the identified plant (or "Plant Analysis"), holding the image and the
      reply; the sessions behind it are those `Post` left. */
  lemma UploadOpensSession(c: Chats, dataUrl: string, newId: string, responseText: string, parsed: Option<ParsedReply>)
    requires NeedsNew(c.history, c.active)
    requires !HasId(c.history, newId)
    ensures var msg := ChatMessage(User, ImagePrompt(ImageCaption, dataUrl));
            var r := Upload(c, Some(dataUrl), false, newId, responseText, parsed);
            var p := Post(c.history, c.active, msg, PlantAnalysisTitle, newId);
            && r.active == Some(newId)
            && r.history[0] == ChatSession(newId,
                 if IsIdentification(parsed) then parsed.value.plantName.value else PlantAnalysisTitle,
                 [msg, ChatMessage(Model, ReplyContent(responseText, parsed))])
            && r.history[1..] == p.history[1..]
  {
    var msg := ChatMessage(User, ImagePrompt(ImageCaption, dataUrl));
    var p := Post(c.history, c.active, msg, PlantAnalysisTitle, newId);
    var reply := ChatMessage(Model, ReplyContent(responseText, parsed));
    PostOpensSession(c.history, c.active, msg, PlantAnalysisTitle, newId);
    var h := if IsIdentification(parsed) then Retitle(p.history, newId, parsed.value.plantName.value) else p.history;
    var r := AppendTo(h, newId, reply);
    assert |h| == |p.history|;
    forall i | 1 <= i < |p.history| ensures h[i] == p.history[i] && r[i] == p.history[i] {
      assert p.history[1..][i - 1].id != newId;
    }
    assert r[1..] == p.history[1..];
  }

  /** An image sent to an active, non-empty session is handled like text:
      the image and then the reply are appended to it, it is renamed after
      the plant when the reply is an identification, and no other session
      changes. */
  lemma UploadAppends(c: Chats, dataUrl: string, newId: string, responseText: string, parsed: Option<ParsedReply>)
    requires !NeedsNew(c.history, c.active)
    ensures var r := Upload(c, Some(dataUrl), false, newId, responseText, parsed);
            && r.active == c.active
            && |r.history| == |c.history|
            && forall i :: 0 <= i < |c.history| ==>
                 r.history[i] ==
                   if c.history[i].id == c.active.value
                   then ChatSession(c.history[i].id,
                          if IsIdentification(parsed) then parsed.value.plantName.value else c.history[i].title,
                          c.history[i].messages + [ChatMessage(User, ImagePrompt(ImageCaption, dataUrl)),
                                                   ChatMessage(Model, ReplyContent(responseText, parsed))])
                   else c.history[i]
  {
    var msg := ChatMessage(User, ImagePrompt(ImageCaption, dataUrl));
    var reply := ChatMessage(Model, ReplyContent(responseText, parsed));
    var p := Post(c.history, c.active, msg, PlantAnalysisTitle, newId);
    PostAppends(c.history, c.active, msg, PlantAnalysisTitle, newId);
    var id := c.active.value;
    var h := if IsIdentification(parsed) then Retitle(p.history, id, parsed.value.plantName.value) else p.history;
    var r := AppendTo(h, id, reply);
    forall i | 0 <= i < |c.history| && c.history[i].id == id
      ensures r[i].messages == c.history[i].messages + [msg, reply]
    {
      assert c.history[i].messages + [msg] + [reply] == c.history[i].messages + [msg, reply];
    }
  }

  // ---------------------------------------------------------------------
  // Edit and regenerate

  /** The messages kept before the edited one: `slice(0, i)` of the first
      session with that id, or none when there is no such session. */
  function Truncated(h: seq<ChatSession>, e: EditState): (r: seq<ChatMessage>)
    ensures |r| <= e.messageIndex
    ensures !HasId(h, e.chatId) ==> r == []
    ensures HasId(h, e.chatId) ==>
              var ms := h[FindIndex(h, e.chatId).value].messages;
              && |r| == (if e.messageIndex <= |ms| then e.messageIndex else |ms|)
              && r == ms[..|r|]
  {
    match Find(h, e.chatId) {
      case None => []
      case Some(s) => if e.messageIndex <= |s.messages| then s.messages[..e.messageIndex] else s.messages
    }
  }

  /** `handleSaveEdit` followed by the regenerated reply. */
  function SaveEdit(c: Chats, editing: Option<EditState>, reply: string): (r: Chats)
    ensures editing.None? ==> r == c
    ensures r.active == c.active && |r.history| == |c.history|
  {
    match editing {
      case None => c
      case Some(e) =>
        var h := SetMessages(c.history, e.chatId, Truncated(c.history, e) + [ChatMessage(User, Text(e.text))]);
        Chats(AppendTo(h, e.chatId, ChatMessage(Model, Text(reply))), c.active)
    }
  }

  /** Saving an edit at index i: the edited session becomes its first i
      messages, the edited text and exactly one reply; every other session
      and the active id are untouched. */
  lemma SaveEditShape(c: Chats, e: EditState, reply: string)
    requires HasId(c.history, e.chatId)
    ensures SaveEdit(c, Some(e), reply).active == c.active
    ensures |SaveEdit(c, Some(e), reply).history| == |c.history|
    ensures forall i :: 0 <= i < |c.history| && c.history[i].id != e.chatId ==>
              SaveEdit(c, Some(e), reply).history[i] == c.history[i]
    ensures forall i :: 0 <= i < |c.history| && c.history[i].id == e.chatId ==>
              var s := SaveEdit(c, Some(e), reply).history[i];
              && s.id == c.history[i].id && s.title == c.history[i].title
              && |s.messages| == |Truncated(c.history, e)| + 2
              && s.messages[..|s.messages| - 2] == Truncated(c.history, e)
              && s.messages[|s.messages| - 2..] == [ChatMessage(User, Text(e.text)), ChatMessage(Model, Text(reply))]
    ensures var k := FindIndex(c.history, e.chatId).value;
            Truncated(c.history, e) == c.history[k].messages[..if e.messageIndex <= |c.history[k].messages| then e.messageIndex else |c.history[k].messages|]
  {
    var t := Truncated(c.history, e) + [ChatMessage(User, Text(e.text))];
    var r := SaveEdit(c, Some(e), reply).history;
    forall i | 0 <= i < |c.history| && c.history[i].id == e.chatId
      ensures r[i].messages == t + [ChatMessage(Model, Text(reply))]
    {
    }
  }

  // ---------------------------------------------------------------------
  // Identification feedback

  /** The follow-up the model posts: one for "correct", one for "incorrect"
      with a corrected name, none otherwise. */
  function Followup(feedback: Feedback, correctedName: Option<string>): (r: seq<ChatMessage>)
    ensures |r| <= 1
    ensures |r| == 1 <==> feedback == Correct || Truthy(correctedName)
    ensures forall m :: m in r ==> m.role == Model
  {
    if feedback == Correct then
      [ChatMessage(Model, Text("Great! I've noted that. If you have more questions about it, feel free to ask!"))]
    else if Truthy(correctedName) then
      [ChatMessage(Model, Text("Thank you for the correction! I'll remember this is a " + correctedName.value
                                + ". What would you like to know about it?"))]
    else []
  }

  /** The message list with the identification at `i` carrying the answer,
      when the message there is a model identification. */
  function Marked(ms: seq<ChatMessage>, i: nat, feedback: Feedback, correctedName: Option<string>): (r: seq<ChatMessage>)
    ensures |r| == |ms|
    ensures forall j :: 0 <= j < |ms| && j != i ==> r[j] == ms[j]
    ensures forall j :: 0 <= j < |ms| ==> r[j].role == ms[j].role
  {
    if i < |ms| && ms[i].role == Model && ms[i].content.PlantIdentification? then
      var rec := ms[i].content.record;
      ms[i := ChatMessage(Model, PlantIdentification(rec.(userFeedback := Some(feedback), correctedName := correctedName)))]
    else ms
  }

  /** `handleIdentificationFeedback`. */
  function GiveFeedback(c: Chats, i: nat, feedback: Feedback, correctedName: Option<string>): (r: Chats)
    ensures !Truthy(c.active) ==> r == c
    ensures r.active == c.active && |r.history| == |c.history|
  {
    if !Truthy(c.active) then c
    else
      Chats(MapWhere(c.history, c.active.value,
                     (s: ChatSession) => s.(messages := Marked(s.messages, i, feedback, correctedName) + Followup(feedback, correctedName))),
            c.active)
  }

  /** Only a model identification at index i is rewritten, and only in its
      feedback fields; the other messages stay; one follow-up is appended
      when there is one to post. */
  lemma MarkedShape(ms: seq<ChatMessage>, i: nat, feedback: Feedback, correctedName: Option<string>)
    ensures |Marked(ms, i, feedback, correctedName)| == |ms|
    ensures forall j :: 0 <= j < |ms| && j != i ==> Marked(ms, i, feedback, correctedName)[j] == ms[j]
    ensures i < |ms| && ms[i].role == Model && ms[i].content.PlantIdentification? ==>
              var rec := ms[i].content.record;
              var m := Marked(ms, i, feedback, correctedName)[i];
              && m.role == Model && m.content.PlantIdentification?
              && m.content.record.plantName == rec.plantName
              && m.content.record.confidence == rec.confidence
              && m.content.record.careInstructions == rec.careInstructions
              && m.content.record.userFeedback == Some(feedback)
              && m.content.record.correctedName == correctedName
    ensures !(i < |ms| && ms[i].role == Model && ms[i].content.PlantIdentification?) ==>
              Marked(ms, i, feedback, correctedName) == ms
  {
  }

  /** Feedback touches only the active session(s): their messages become the
      marked list plus the follow-up; others are unchanged. */
  lemma FeedbackShape(c: Chats, i: nat, feedback: Feedback, correctedName: Option<string>)
    requires Truthy(c.active)
    ensures GiveFeedback(c, i, feedback, correctedName).active == c.active
    ensures |GiveFeedback(c, i, feedback, correctedName).history| == |c.history|
    ensures forall k :: 0 <= k < |c.history| ==>
              var s := GiveFeedback(c, i, feedback, correctedName).history[k];
              && s.id == c.history[k].id && s.title == c.history[k].title
              && s.messages == if c.history[k].id == c.active.value
                               then Marked(c.history[k].messages, i, feedback, correctedName) + Followup(feedback, correctedName)
                               else c.history[k].messages
  {
  }

  /** The active session grows by exactly the follow-up, if there is one. */
  lemma FeedbackCount(c: Chats, i: nat, feedback: Feedback, correctedName: Option<string>)
    requires Truthy(c.active)
    ensures forall k :: 0 <= k < |c.history| && c.history[k].id == c.active.value ==>
              |GiveFeedback(c, i, feedback, correctedName).history[k].messages|
              == |c.history[k].messages| + (if feedback == Correct || Truthy(correctedName) then 1 else 0)
  {
    forall k | 0 <= k < |c.history| && c.history[k].id == c.active.value
      ensures |GiveFeedback(c, i, feedback, correctedName).history[k].messages|
              == |c.history[k].messages| + (if feedback == Correct || Truthy(correctedName) then 1 else 0)
    {
      MarkedShape(c.history[k].messages, i, feedback, correctedName);
    }
  }

  // ---------------------------------------------------------------------
  // Plant titles for the planner palette and the calendar

  predicate Distinct(xs: seq<string>) {
    forall i, j :: 0 <= i < j < |xs| ==> xs[i] != xs[j]
  }

  /** A title that names a plant: non-empty and not one of the two defaults. */
  predicate IsPlantTitle(t: string) {
    t != "" && t != NewChatTitle && t != PlantAnalysisTitle
  }

  /** The session titles that name plants, in history order. */
  function PlantTitleList(h: seq<ChatSession>): (r: seq<string>)
    ensures forall t :: t in r <==> IsPlantTitle(t) && exists i :: 0 <= i < |h| && h[i].title == t
  {
    if h == [] then []
    else
      var rest := PlantTitleList(h[..|h| - 1]);
      var last := h[|h| - 1].title;
      assert forall i :: 0 <= i < |h| - 1 ==> h[..|h| - 1][i] == h[i];
      if IsPlantTitle(last) then rest + [last] else rest
  }

  /** `[...new Set(xs)]`: the first occurrence of each element, in order. */
  function Dedupe(xs: seq<string>): (r: seq<string>)
    ensures Distinct(r)
    ensures forall x :: x in r <==> x in xs
  {
    if xs == [] then []
    else
      var d := Dedupe(xs[..|xs| - 1]);
      var last := xs[|xs| - 1];
      assert forall x :: x in xs <==> x in xs[..|xs| - 1] || x == last by {
        assert xs == xs[..|xs| - 1] + [last];
      }
      if last in d then d else d + [last]
  }

  /** Each element is kept at its first occurrence: a later repeat adds
      nothing, a new element goes to the end. */
  lemma DedupeSnoc(xs: seq<string>, x: string)
    ensures Dedupe(xs + [x]) == if x in xs then Dedupe(xs) else Dedupe(xs) + [x]
  {
    assert (xs + [x])[..|xs|] == xs;
  }

  /** The title list grows by the new session's title when it names a plant. */
  lemma PlantTitleListSnoc(h: seq<ChatSession>, s: ChatSession)
    ensures PlantTitleList(h + [s]) == PlantTitleList(h) + (if IsPlantTitle(s.title) then [s.title] else [])
  {
    assert (h + [s])[..|h|] == h;
  }

  /** The map and filter keep history order and repeats: they work piece by piece. */
  lemma {:induction false} PlantTitleListAppend(a: seq<ChatSession>, b: seq<ChatSession>)
    ensures PlantTitleList(a + b) == PlantTitleList(a) + PlantTitleList(b)
    decreases |b|
  {
    if b == [] {
      assert a + b == a;
    } else {
      var init := b[..|b| - 1];
      var last := b[|b| - 1];
      assert b == init + [last];
      assert a + b == (a + init) + [last];
      PlantTitleListAppend(a, init);
      PlantTitleListSnoc(a + init, last);
      PlantTitleListSnoc(init, last);
    }
  }

  /** A list without repeats is left as it is. */
  lemma {:induction false} DedupeDistinct(xs: seq<string>)
    requires Distinct(xs)
    ensures Dedupe(xs) == xs
  {
    if xs != [] {
      var init := xs[..|xs| - 1];
      assert Distinct(init);
      DedupeDistinct(init);
      assert xs[|xs| - 1] !in init;
      assert init + [xs[|xs| - 1]] == xs;
    }
  }

  /** `getInitialPlantPalette` and the calendar's plant list. */
  function PlantTitles(h: seq<ChatSession>): (r: seq<string>)
    ensures Distinct(r)
    ensures forall t :: t in r <==> IsPlantTitle(t) && exists i :: 0 <= i < |h| && h[i].title == t
  {
    Dedupe(PlantTitleList(h))
  }

  /** The palette lists plant titles at their first occurrence in history
      order: a session appended at the end adds its title only when it names
      a plant not listed yet. */
  lemma PlantTitlesSnoc(h: seq<ChatSession>, s: ChatSession)
    ensures PlantTitles(h + [s])
         == if IsPlantTitle(s.title) && s.title !in PlantTitles(h) then PlantTitles(h) + [s.title] else PlantTitles(h)
  {
    PlantTitleListSnoc(h, s);
    if IsPlantTitle(s.title) {
      DedupeSnoc(PlantTitleList(h), s.title);
    } else {
      assert PlantTitleList(h) + [] == PlantTitleList(h);
    }
  }
}
