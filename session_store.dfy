/** The chat state of the application component: the session list, the
    active chat id, the pending edit and the one-shot weather switch. Each
    handler replaces the state with the value the pure handler in `Sessions`
    gives. */
module SessionStore {
  import opened Types
  import opened Text
  import opened Sessions
  import Weather

  class Store {
    var history: seq<ChatSession>
    var active: Option<string>
    var editing: Option<EditState>
    var weatherContext: bool

    /** The two fields the session handlers rewrite. */
    function Chats(): Sessions.Chats
      reads this
    {
      Sessions.Chats(history, active)
    }

    /** `history.find(chat => chat.id === activeChatId)?.messages ?? []`. */
    function Messages(): (ms: seq<ChatMessage>)
      reads this
      ensures !(active.Some? && HasId(history, active.value)) ==> ms == []
      ensures active.Some? && HasId(history, active.value) ==>
                ms == history[FindIndex(history, active.value).value].messages
    {
      if active.None? then []
      else match Find(history, active.value) {
        case None => []
        case Some(s) => s.messages
      }
    }

    constructor()
      ensures history == [] && active == None && editing == None && !weatherContext
    {
      history := [];
      active := None;
      editing := None;
      weatherContext := false;
    }

    method NewChat(newId: string)
      modifies this
      ensures Chats() == Sessions.NewChat(old(Chats()), newId)
      ensures editing == old(editing) && weatherContext == old(weatherContext)
    {
      history := [ChatSession(newId, NewChatTitle, [])] + history;
      active := Some(newId);
    }

    method SelectChat(id: string)
      modifies this
      ensures active == Some(id)
      ensures history == old(history) && editing == old(editing) && weatherContext == old(weatherContext)
    {
      active := Some(id);
    }

    /** `confirmed` is the user's answer to the confirmation dialog. */
    method DeleteChat(id: string, confirmed: bool)
      modifies this
      ensures Chats() == Delete(old(Chats()), id, confirmed)
      ensures editing == old(editing) && weatherContext == old(weatherContext)
    {
      if confirmed {
        history := Remove(history, id);
      }
    }

    /** The effect that runs after every change of `history` or the active id. */
    method RepairActive()
      modifies this
      ensures active == Repair(history, old(active))
      ensures history == old(history) && editing == old(editing) && weatherContext == old(weatherContext)
    {
      if !(active.Some? && HasId(history, active.value)) {
        if |history| > 0 && history[0].id != "" {
          active := Some(history[0].id);
        } else {
          active := None;
        }
      }
    }

    method SetWeatherContext(on: bool)
      modifies this
      ensures weatherContext == on
      ensures history == old(history) && active == old(active) && editing == old(editing)
    {
      weatherContext := on;
    }

    /** `handleSendMessage` with the reply it awaits: `weather` is the last
        reading, if any; `loading` says a request is already in flight. The
        weather sentence is prepended once and the switch turns off. */
    method SendMessage(input: string, weather: Option<Weather.Reading>, loading: bool, newId: string, reply: string)
      modifies this
      ensures var used := !IsBlank(input) && !loading && old(weatherContext) && weather.Some?;
              && Chats() == Send(old(Chats()), input,
                                 if used then Weather.Context(weather.value.temperature, weather.value.code) else "",
                                 loading, newId, reply)
              && weatherContext == (old(weatherContext) && !used)
      ensures editing == old(editing)
    {
      if IsBlank(input) || loading {
        return;
      }
      var context := "";
      if weatherContext && weather.Some? {
        context := Weather.Context(weather.value.temperature, weather.value.code);
        weatherContext := false;
      }
      var p := Post(history, active, ChatMessage(User, Text(context + input)), Title(input), newId);
      history := ReplyTo(p.history, active, ChatMessage(Model, Text(reply)));
      active := p.active;
    }

    /** `handleImageUpload` with the reply it awaits: `dataUrl` is absent
        when no file was chosen, `parsed` when the reply was not JSON. */
    method UploadImage(dataUrl: Option<string>, loading: bool, newId: string,
                       responseText: string, parsed: Option<ParsedReply>)
      modifies this
      ensures Chats() == Upload(old(Chats()), dataUrl, loading, newId, responseText, parsed)
      ensures editing == old(editing) && weatherContext == old(weatherContext)
    {
      if dataUrl.None? || loading {
        return;
      }
      var msg := ChatMessage(User, ImagePrompt(ImageCaption, dataUrl.value));
      var p := Post(history, active, msg, PlantAnalysisTitle, newId);
      history := p.history;
      active := p.active;
      if IsIdentification(parsed) {
        history := Retitle(history, p.target, parsed.value.plantName.value);
      }
      history := AppendTo(history, p.target, ChatMessage(Model, ReplyContent(responseText, parsed)));
    }

    /** `handleStartEdit`: only a text message can be edited. The index is one
        of the active session's messages, as the message list offers. */
    method StartEdit(index: nat)
      requires Truthy(active) ==> index < |Messages()|
      modifies this
      ensures Truthy(old(active)) && old(Messages())[index].content.Text? ==>
                editing == Some(EditState(old(active).value, index, old(Messages())[index].content.text))
      ensures !(Truthy(old(active)) && old(Messages())[index].content.Text?) ==> editing == old(editing)
      ensures history == old(history) && active == old(active) && weatherContext == old(weatherContext)
    {
      if !Truthy(active) {
        return;
      }
      var m := Messages()[index];
      if m.content.Text? {
        editing := Some(EditState(active.value, index, m.content.text));
      }
    }

    /** The text field of the message being edited: the pending edit takes
        the new text, and nothing happens when no edit is pending. */
    method EditText(text: string)
      modifies this
      ensures editing == if old(editing).Some? then Some(old(editing).value.(text := text)) else None
      ensures history == old(history) && active == old(active) && weatherContext == old(weatherContext)
    {
      if editing.Some? {
        editing := Some(editing.value.(text := text));
      }
    }

    method CancelEdit()
      modifies this
      ensures editing == None
      ensures history == old(history) && active == old(active) && weatherContext == old(weatherContext)
    {
      editing := None;
    }

    /** `handleSaveEdit` with the regenerated reply. */
    method SaveEdit(reply: string)
      modifies this
      ensures Chats() == Sessions.SaveEdit(old(Chats()), old(editing), reply)
      ensures editing == None && weatherContext == old(weatherContext)
    {
      if editing.None? {
        return;
      }
      var e := editing.value;
      editing := None;
      var truncated := Truncated(history, e);
      history := SetMessages(history, e.chatId, truncated + [ChatMessage(User, Text(e.text))]);
      history := AppendTo(history, e.chatId, ChatMessage(Model, Text(reply)));
    }

    /** `handleIdentificationFeedback`. */
    method IdentificationFeedback(index: nat, feedback: Feedback, correctedName: Option<string>)
      modifies this
      ensures Chats() == GiveFeedback(old(Chats()), index, feedback, correctedName)
      ensures editing == old(editing) && weatherContext == old(weatherContext)
    {
      if !Truthy(active) {
        return;
      }
      history := MapWhere(history, active.value,
        (s: ChatSession) => s.(messages := Marked(s.messages, index, feedback, correctedName) + Followup(feedback, correctedName)));
    }
  }
}
