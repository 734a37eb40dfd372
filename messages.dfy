/**
 * The message builder of the generation route: the list of chat messages
 * the route sends to the model for a request body.
 */
module Messages {
  import opened Text

  datatype Role = System | User | Assistant

  datatype Message = Message(role: Role, content: string)

  /** The fields of the request body the builder reads. `None` stands for a
      field that is absent, null or undefined; `replaceMode` is the value
      after `Boolean(...)`. */
  datatype RequestBody = RequestBody(
    messages: Option<seq<Message>>,
    userInput: Option<string>,
    existingCode: Option<string>,
    system: Option<string>,
    replaceMode: bool)

  /** A JavaScript string in a condition: present and non-empty. */
  predicate Truthy(s: Option<string>)
  {
    s.Some? && s.value != ""
  }

  const EditSystem := "You are an expert assistant that edits HTML/CSS based on user requests. The previous HTML code is included below inside triple backticks as an assistant message. Given the user's instruction, produce the complete, updated HTML (only the body content) and wrap it in ```html ... ```. Do NOT include any explanation or commentary. Do NOT append duplicate sections; modify the existing structure in-place."

  const Placeholder := "{userInput}"

  /** The default system template of line 32, around its placeholder. */
  const TemplateHead := "userInput: "
  const TemplateTail := "\n\nInstructions: Generate full responsive HTML body based on userInput."
  const DefaultSystem := TemplateHead + Placeholder + TemplateTail

  /** `code.replace(/^```+\w*\n?/, '')`: a run of at least three backticks
      at the very start, the word characters after it and one optional
      newline are removed. Each part is greedy and the three parts use
      disjoint characters, so the engine never backtracks. */
  function StripLeadingFence(code: string): string
  {
    if At(code, 0, "```") then
      var a := RunEnd(code, 0, Backtick);
      var b := RunEnd(code, a, Word);
      if b < |code| && code[b] == '\n' then code[b + 1..] else code[b..]
    else code
  }

  /** What the regular expression matches: the leading run of backticks,
      then the word characters, then a newline if there is one. */
  ghost predicate FenceOpening(code: string, a: nat, b: nat)
  {
    3 <= a <= b <= |code|
    && (forall j :: 0 <= j < a ==> code[j] == '`') && (a < |code| ==> code[a] != '`')
    && (forall j :: a <= j < b ==> IsWordChar(code[j])) && (b < |code| ==> !IsWordChar(code[b]))
  }

  lemma StripLeadingFenceSpec(code: string)
    ensures !At(code, 0, "```") ==> StripLeadingFence(code) == code
    ensures At(code, 0, "```") ==>
      exists a: nat, b: nat :: (FenceOpening(code, a, b)
        && StripLeadingFence(code) == if b < |code| && code[b] == '\n' then code[b + 1..] else code[b..])
  {
    if At(code, 0, "```") {
      var a := RunEnd(code, 0, Backtick);
      var b := RunEnd(code, a, Word);
      forall j | 0 <= j < 3 ensures InClass(code[j], Backtick) {
        assert code[0 + j] == "```"[j];
      }
      RunEndMaximal(code, 0, Backtick, 3);
      assert FenceOpening(code, a, b);
    }
  }

  /** Any code wrapped as the model is told to answer, "```html\n" and
      then the code, loses exactly that opening. */
  lemma StripHtmlFence(x: string)
    ensures StripLeadingFence("```html\n" + x) == x
  {
    var code := "```html\n" + x;
    assert At(code, 0, "```");
    RunEndUnique(code, 0, Backtick, 3);
    RunEndUnique(code, 3, Word, 7);
    assert code[8..] == x;
  }

  /** The assistant message that carries the existing code. */
  function CodeMessage(code: string): Message
  {
    Message(Assistant, "```html\n" + StripLeadingFence(code) + "\n```")
  }

  /** Lines 12-38: the messages forwarded to the model, `None` when the body
      has neither `messages` nor a non-empty `userInput`. */
  function BuildMessages(body: RequestBody): (r: Option<seq<Message>>)
    ensures body.messages.Some? ==> r == body.messages
    ensures r.Some? <==> body.messages.Some? || Truthy(body.userInput)
    ensures body.messages.None? && Truthy(body.userInput) && Truthy(body.existingCode) ==>
      r.Some? && |r.value| == 3
      && r.value[0] == Message(System, EditSystem)
      && r.value[1] == Message(User, body.userInput.value)
      && r.value[2] == CodeMessage(body.existingCode.value)
    ensures body.messages.None? && Truthy(body.userInput) && !Truthy(body.existingCode) ==>
      r.Some? && |r.value| == 2
      && r.value[0].role == System && r.value[1] == Message(User, body.userInput.value)
  {
    if body.messages.Some? then body.messages
    else if !Truthy(body.userInput) then None
    else
      var userInput := body.userInput.value;
      if Truthy(body.existingCode) then
        Some([Message(System, EditSystem), Message(User, userInput), CodeMessage(body.existingCode.value)])
      else
        var system := match body.system case Some(s) => s case None => DefaultSystem;
        Some([Message(System, ReplaceFirst(system, Placeholder, userInput)), Message(User, userInput)])
  }

  /** `replaceMode` is read but never used. */
  lemma ReplaceModeIgnored(body: RequestBody)
    ensures BuildMessages(body) == BuildMessages(body.(replaceMode := !body.replaceMode))
  {
  }

  /** In fresh mode the system prompt is the given one (an empty string
      included: `??` only replaces null and undefined) with its first
      placeholder replaced. */
  lemma FreshSystemPrompt(body: RequestBody)
    requires body.messages.None? && Truthy(body.userInput) && !Truthy(body.existingCode)
    requires body.system.Some?
    ensures BuildMessages(body).Some?
    ensures BuildMessages(body).value[0].content == ReplaceFirst(body.system.value, Placeholder, body.userInput.value)
  {
  }

  /** The first placeholder of the default template is the one after its
      head. */
  lemma DefaultPlaceholder()
    ensures At(DefaultSystem, |TemplateHead|, Placeholder)
    ensures forall j: nat :: j < |TemplateHead| ==> !At(DefaultSystem, j, Placeholder)
  {
    forall j: nat | j < |TemplateHead| ensures !At(DefaultSystem, j, Placeholder) {
      assert DefaultSystem[j] == TemplateHead[j];
      assert Placeholder[0] == '{';
    }
  }

  /** Without a `system` field and with an input holding no `$`, the
      default template gets the input in the place of its placeholder. */
  lemma FreshDefaultPrompt(body: RequestBody)
    requires body.messages.None? && Truthy(body.userInput) && !Truthy(body.existingCode)
    requires body.system.None?
    requires forall i :: 0 <= i < |body.userInput.value| ==> body.userInput.value[i] != '$'
    ensures BuildMessages(body).Some?
    ensures BuildMessages(body).value[0].content
      == TemplateHead + body.userInput.value + TemplateTail
  {
    DefaultPlaceholder();
    ReplaceFirstAt(DefaultSystem, Placeholder, body.userInput.value, |TemplateHead|);
    assert DefaultSystem[..|TemplateHead|] == TemplateHead;
    assert DefaultSystem[|TemplateHead| + |Placeholder|..] == TemplateTail;
  }

  /** The input is a replacement pattern, not literal text: an input of
      "$&" puts the placeholder itself back, so the system prompt is the
      template unchanged. */
  lemma DollarAmpersandKeepsPlaceholder(body: RequestBody)
    requires body.messages.None? && body.userInput == Some("$&") && !Truthy(body.existingCode)
    requires body.system.None?
    ensures BuildMessages(body).Some?
    ensures BuildMessages(body).value[0].content == DefaultSystem
  {
    DefaultPlaceholder();
    ReplaceFirstAt(DefaultSystem, Placeholder, body.userInput.value, |TemplateHead|);
    var before := DefaultSystem[..|TemplateHead|];
    var after := DefaultSystem[|TemplateHead| + |Placeholder|..];
    assert before == TemplateHead;
    assert after == TemplateTail;
    assert Substitute("$&", Placeholder, before, after) == Placeholder;
  }

  /** Only a leading fence is stripped: existing code that is wrapped in a
      fence keeps its closing fence, and the message closes a second one. */
  lemma DoubledClosingFence(body: RequestBody, x: string)
    requires body.messages.None? && Truthy(body.userInput)
    requires body.existingCode == Some("```html\n" + x + "\n```")
    ensures BuildMessages(body).Some?
    ensures BuildMessages(body).value[2].content == "```html\n" + x + "\n```\n```"
  {
    assert "```html\n" + x + "\n```" == "```html\n" + (x + "\n```");
    StripHtmlFence(x + "\n```");
  }

  /** Code that does not open with three backticks is wrapped verbatim. */
  lemma UnfencedCodeVerbatim(body: RequestBody)
    requires body.messages.None? && Truthy(body.userInput) && Truthy(body.existingCode)
    requires !At(body.existingCode.value, 0, "```")
    ensures BuildMessages(body).Some?
    ensures BuildMessages(body).value[2].content == "```html\n" + body.existingCode.value + "\n```"
  {
  }
}
