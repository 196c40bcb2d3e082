/**
  The application state of the website builder: the linear version history
  with its current index, the pending selection and edit instruction, and the
  handlers that generate a new version, apply a streamed edit, replace the
  current version's code, and accept selection messages from the preview.

  Each handler runs as one sequential step; the service's answer to a request
  is passed in as a `Reply`.
 */
module Builder {
  import opened Text
  import opened GeminiService
  import opened Preview

  /** The pending selection: an element, or a run of text inside one. */
  datatype SelectionInfo =
    | ElementSelection(selector: Option<string>)
    | TextSelection(selector: Option<string>, text: string)

  const EmptyPrompt: string := "Please enter a prompt to generate the website."
  const NoEditInstruction: string := "No edit instruction provided."
  const Misaligned: string := "Could not apply edit. The AI's response did not match the current code. Try again."

  /** The edit request built from the pending selection and the user's input:
      an instruction for an element, or replacement text for selected text. */
  function EditRequestFor(selection: SelectionInfo, input: string): (r: EditRequest)
    ensures r.selector == selection.selector
    ensures r.ElementEdit? <==> selection.ElementSelection?
    ensures r.ElementEdit? ==> r.prompt == input
    ensures r.TextEdit? ==> r.originalText == selection.text && r.newText == input
  {
    match selection
    case ElementSelection(selector) => ElementEdit(selector, input)
    case TextSelection(selector, text) => TextEdit(selector, text, input)
  }

  /** The texts a generation appends, in order (none when the request fails). */
  function GenerateTexts(reply: Reply): seq<string>
  {
    match GenerateWebsiteCodeStream(reply)
    case Opened(texts, _) => texts
    case OpenFailed(_) => []
  }

  /** The error a generation ends with, if any. */
  function GenerateFailure(reply: Reply): (f: Option<string>)
    ensures f == None <==> reply.Streamed? && reply.end.Completed?
    ensures reply.Rejected? ==> f == Some(GenerateFailurePrefix + reply.message)
    ensures reply.Streamed? && reply.end.Broken? ==> f == Some(reply.end.message)
  {
    match GenerateWebsiteCodeStream(reply)
    case OpenFailed(message) => Some(message)
    case Opened(_, Broken(message)) => Some(message)
    case Opened(_, Completed) => None
  }

  /** Error messages that reopen the API key dialog. */
  predicate AsksForApiKey(message: string)
  {
    Includes(message, "API key") || Includes(message, "403")
  }

  /** The version an edit leaves behind once the handler has consumed the
      decoder's values `yielded` (the original block first): the copy of the
      base stays as it is until a value after the original block arrives, and
      an empty original block never overwrites it; otherwise it is the base
      with the first occurrence of the original block replaced by the
      concatenation of the values after it. */
  function EditedSnapshot(base: string, yielded: seq<string>): string
    requires yielded != []
  {
    if |yielded| == 1 || yielded[0] == "" then base
    else ReplaceFirst(base, yielded[0], Concat(yielded[1..]))
  }

  /** Consuming one more value after the original block recomputes the
      version from the base with the grown new block. */
  lemma EditedSnapshotStep(base: string, yielded: seq<string>, i: nat)
    requires 1 <= i < |yielded|
    ensures Concat(yielded[1..i + 1]) == Concat(yielded[1..i]) + yielded[i]
    ensures EditedSnapshot(base, yielded[..i + 1]) ==
      if yielded[0] == "" then base else ReplaceFirst(base, yielded[0], Concat(yielded[1..i]) + yielded[i])
  {
    var rest := yielded[1..];
    ConcatStep(rest, i - 1);
    assert rest[..i] == yielded[1..i + 1];
    assert rest[..i - 1] == yielded[1..i];
    assert yielded[..i + 1][1..] == yielded[1..i + 1];
  }

  /** What an edit makes of a response containing the separator, whatever its
      chunking: with an empty original block the copy stays as the base; once
      any value after a non-empty original block has arrived, the copy is the
      base with the first occurrence of the original block replaced by the
      whole text after the separator; and such a value always arrives when
      that text is not empty. */
  lemma EditedSnapshotOfResponse(base: string, texts: seq<string>)
    requires Includes(Concat(texts), Separator)
    ensures var s := Concat(texts);
      var k := IndexOf(s, Separator);
      var yielded := EditYields(texts);
      && yielded != []
      && yielded[0] == s[..k]
      && (s[..k] == "" ==> EditedSnapshot(base, yielded) == base)
      && (s[k + |Separator|..] != "" ==> |yielded| > 1)
      && (s[..k] != "" && |yielded| > 1 ==> EditedSnapshot(base, yielded) == ReplaceFirst(base, s[..k], s[k + |Separator|..]))
  {
    EditYieldsFirst(texts);
    EditYieldsRest(texts);
    var yielded := EditYields(texts);
    if |yielded| == 1 {
      assert yielded[1..] == [];
    }
  }

  /** An edit whose new block is not empty leaves the same version however the
      response was cut into chunks. */
  lemma EditedSnapshotChunkingIrrelevant(base: string, a: seq<string>, b: seq<string>)
    requires Concat(a) == Concat(b) && Includes(Concat(a), Separator)
    requires var s := Concat(a); s[IndexOf(s, Separator) + |Separator|..] != ""
    ensures EditYields(a) != [] && EditYields(b) != []
    ensures EditedSnapshot(base, EditYields(a)) == EditedSnapshot(base, EditYields(b))
  {
    EditedSnapshotOfResponse(base, a);
    EditedSnapshotOfResponse(base, b);
  }

  /** The one-chunk response "a" + separator: its text, where the separator
      sits, and what the decoder yields from it. */
  lemma DeletionResponse()
    ensures Concat(["a" + Separator]) == "a" + Separator
    ensures IndexOf("a" + Separator, Separator) == 1
    ensures EditYields(["a" + Separator]) == ["a"]
  {
    var t: string := "a" + Separator;
    var one: seq<string> := [t];
    assert one[..0] == [];
    assert Occurs(t, Separator, 1);
    assert !Occurs(t, Separator, 0) by {
      assert t[0] == 'a' != Separator[0];
    }
    assert t[..1] == "a" && t[1 + |Separator|..] == "";
    assert !Includes(Concat(one[..0]), Separator);
  }

  /** A deletion is lost: the response "a" + separator asks to remove the
      first "a" of "ab", but the decoder never yields the empty new block, so
      the appended copy is left as "ab". */
  lemma DeletionIgnored()
    ensures EditYields(["a" + Separator]) == ["a"]
    ensures EditedSnapshot("ab", EditYields(["a" + Separator])) == "ab"
    ensures ReplaceFirst("ab", "a", "") == "b"
  {
    DeletionResponse();
    assert Occurs("ab", "a", 0);
  }

  /** The same response text cut into one more, empty, chunk: the text read is
      the same, but the empty chunk is passed on as a new block. */
  lemma DeletionChunkedResponse()
    ensures Concat(["a" + Separator, ""]) == Concat(["a" + Separator])
    ensures EditYields(["a" + Separator, ""]) == ["a", ""]
  {
    DeletionResponse();
    var t: string := "a" + Separator;
    var one: seq<string> := [t];
    var two: seq<string> := [t, ""];
    assert two[..1] == one && two[..2] == two;
    assert Includes(Concat(one), Separator) by {
      assert Occurs(Concat(one), Separator, 1);
    }
    EditYieldsPassOne(two, 1);
  }

  /** Cut that way the deletion is applied: the outcome of a deletion depends
      on the chunking. */
  lemma DeletionDependsOnChunking()
    ensures EditYields(["a" + Separator, ""]) != []
    ensures EditedSnapshot("ab", EditYields(["a" + Separator, ""])) == "b"
  {
    DeletionChunkedResponse();
    DeletionIgnored();
    var yielded: seq<string> := ["a", ""];
    var rest: seq<string> := [""];
    assert yielded[1..] == rest && rest[..0] == [];
    assert Concat(rest) == "";
  }

  /** The version an edit should leave: the original block, when not empty,
      replaced by the new block, including an empty one. */
  function CorrectedEditedSnapshot(base: string, yielded: seq<string>): string
    requires yielded != []
  {
    if yielded[0] == "" then base
    else ReplaceFirst(base, yielded[0], Concat(yielded[1..]))
  }

  /** The corrected version depends only on the response text: it is the base
      with the original block replaced by the whole text after the separator,
      so a deletion is applied and the chunking does not matter. */
  lemma CorrectedEditedSnapshotOfResponse(base: string, texts: seq<string>)
    requires Includes(Concat(texts), Separator)
    ensures var s := Concat(texts);
      var k := IndexOf(s, Separator);
      && EditYields(texts) != []
      && CorrectedEditedSnapshot(base, EditYields(texts)) ==
           if k == 0 then base else ReplaceFirst(base, s[..k], s[k + |Separator|..])
  {
    EditYieldsFirst(texts);
    EditYieldsRest(texts);
  }

  /** The state an edit of version `current` of `before` leaves once the
      reply has been consumed: with nothing decoded the history is as it was
      and the error is the stream's; when the original block is not in the
      current version the history is as it was and the error says so;
      otherwise the versions after the current one are dropped, the edited
      version is appended and made current, and the error is the stream's. */
  predicate EditOutcome(before: seq<string>, current: nat, reply: Reply,
                        history: seq<string>, index: nat, error: Option<string>)
    requires current < |before|
  {
    var yielded := EditYields(ReplyTexts(reply));
    if yielded == [] then
      history == before && index == current && error == EditFailure(reply)
    else if !Includes(before[current], yielded[0]) then
      history == before && index == current && error == Some(Misaligned)
    else
      && history == before[..current + 1] + [EditedSnapshot(before[current], yielded)]
      && index == current + 1
      && error == EditFailure(reply)
  }

  /** The version history and the rest of the application's state. */
  class App {
    var prompt: string
    var history: seq<string>
    var index: int
    var isLoading: bool
    var error: Option<string>
    var isEditMode: bool
    var selection: Option<SelectionInfo>
    var editInput: string
    var isEditing: bool
    var apiKeyModalOpen: bool

    /** The history is never empty and the index always names a version. */
    ghost predicate Valid()
      reads this`history, this`index
    {
      0 <= index < |history|
    }

    /** The initial state: one seed version; the key dialog is open when no
        API key is stored. */
    constructor (initialHtml: string, hasApiKey: bool)
      ensures Valid()
      ensures history == [initialHtml] && index == 0
      ensures prompt == "" && error == None && !isLoading && !isEditMode
      ensures selection == None && editInput == "" && !isEditing
      ensures apiKeyModalOpen == !hasApiKey
    {
      prompt := "";
      history := [initialHtml];
      index := 0;
      isLoading := false;
      error := None;
      isEditMode := false;
      selection := None;
      editInput := "";
      isEditing := false;
      apiKeyModalOpen := !hasApiKey;
    }

    /** The document shown in the preview and the code editor. */
    function CurrentCode(): (code: string)
      reads this
      ensures Valid() ==> code == history[index]
      ensures !Valid() ==> code == ""
    {
      if 0 <= index < |history| then history[index] else ""
    }

    /** The code editor replaces the current version in place. */
    method SetCode(newCode: string)
      requires Valid()
      modifies this`history
      ensures Valid()
      ensures history == old(history)[index := newCode]
      ensures CurrentCode() == newCode
    {
      history := history[index := newCode];
    }

    /** The version list selects an existing version; nothing else changes. */
    method SelectVersion(i: nat)
      requires i < |history|
      modifies this`index
      ensures Valid() && index == i
    {
      index := i;
    }

    method SetPrompt(p: string)
      modifies this`prompt
      ensures prompt == p
    {
      prompt := p;
    }

    method SetEditMode(on: bool)
      modifies this`isEditMode
      ensures isEditMode == on
    {
      isEditMode := on;
    }

    method SetEditInput(input: string)
      modifies this`editInput
      ensures editInput == input
    {
      editInput := input;
    }

    /** Cancelling the edit dialog drops the pending selection. */
    method DismissSelection()
      modifies this`selection
      ensures selection == None
    {
      selection := None;
    }

    /** The `for await` loop of `handleGenerate`: each streamed text is added
        to the content, and the new version is overwritten with the content
        so far; no other version changes. */
    method WriteGenerated(versionIndex: nat, texts: seq<string>)
      requires versionIndex < |history| && history[versionIndex] == ""
      modifies this`history
      ensures history == old(history)[versionIndex := Concat(texts)]
    {
      var htmlContent := "";
      var i := 0;
      while i < |texts|
        invariant 0 <= i <= |texts|
        invariant htmlContent == Concat(texts[..i])
        invariant history == old(history)[versionIndex := htmlContent]
      {
        ConcatStep(texts, i);
        htmlContent := htmlContent + texts[i];
        history := history[versionIndex := htmlContent];
        i := i + 1;
      }
      assert texts[..i] == texts;
    }

    /** The `catch` of `handleGenerate`: the error is shown, the version being
        generated (the last one, which is current) is removed and the previous
        one made current, and an error about the API key reopens its dialog. */
    method DropFailedVersion(message: string)
      requires Valid() && index == |history| - 1 && index >= 1
      modifies this`history, this`index, this`error, this`apiKeyModalOpen
      ensures Valid()
      ensures history == old(history)[..old(index)] && index == old(index) - 1
      ensures error == Some(message)
      ensures apiKeyModalOpen == (old(apiKeyModalOpen) || AsksForApiKey(message))
    {
      error := Some(message);
      history := history[..|history| - 1];
      index := index - 1;
      if AsksForApiKey(message) {
        apiKeyModalOpen := true;
      }
    }

    /** `handleGenerate`: an empty prompt only reports an error. Otherwise the
        versions after the current one are dropped, an empty version is
        appended and made current, and it is overwritten with the growing
        concatenation of the streamed texts. On failure that version is
        removed and the index moves back, so the history is the kept prefix;
        the dropped versions are not restored. */
    method HandleGenerate(reply: Reply)
      requires Valid()
      modifies this`history, this`index, this`error, this`isLoading, this`isEditMode, this`apiKeyModalOpen
      ensures Valid()
      ensures old(prompt) == "" ==>
        && error == Some(EmptyPrompt)
        && history == old(history) && index == old(index)
        && isLoading == old(isLoading) && isEditMode == old(isEditMode)
        && apiKeyModalOpen == old(apiKeyModalOpen)
      ensures old(prompt) != "" ==> !isLoading && !isEditMode
      ensures old(prompt) != "" ==> error == GenerateFailure(reply)
      ensures old(prompt) != "" && GenerateFailure(reply).None? ==>
        history == old(history)[..old(index) + 1] + [Concat(GenerateTexts(reply))]
      ensures old(prompt) != "" && GenerateFailure(reply).None? ==>
        index == old(index) + 1 && apiKeyModalOpen == old(apiKeyModalOpen)
      ensures old(prompt) != "" && GenerateFailure(reply).Some? ==>
        history == old(history)[..old(index) + 1] && index == old(index)
      ensures old(prompt) != "" && GenerateFailure(reply).Some? ==>
        apiKeyModalOpen == (old(apiKeyModalOpen) || AsksForApiKey(GenerateFailure(reply).value))
    {
      if prompt == "" {
        error := Some(EmptyPrompt);
        return;
      }
      isLoading := true;
      error := None;
      isEditMode := false;

      var newHistory := history[..index + 1];
      var newVersionIndex := |newHistory|;
      history := newHistory + [""];
      index := newVersionIndex;
      assert newHistory == old(history)[..old(index) + 1];

      var failure: Option<string> := None;
      match GenerateWebsiteCodeStream(reply) {
        case OpenFailed(message) =>
          failure := Some(message);
        case Opened(texts, end) =>
          WriteGenerated(newVersionIndex, texts);
          if end.Broken? {
            failure := Some(end.message);
          }
      }

      if failure.Some? {
        DropFailedVersion(failure.value);
      }
      isLoading := false;
    }

    /** The `for await` loop of `handleEdit` over the decoder's values: the
        first is the original block, which must occur in the current version
        `currentHtml`, or the loop stops with the misalignment error before
        touching the history; then a copy of `currentHtml` is appended after
        the current version and made current, and each later value grows the
        new block, the copy being recomputed from `currentHtml` unless the
        original block is empty. */
    method ApplyEditStream(currentHtml: string, yielded: seq<string>) returns (aborted: bool)
      requires Valid() && history[index] == currentHtml
      modifies this`history, this`index, this`error
      ensures Valid()
      ensures aborted <==> yielded != [] && !Includes(currentHtml, yielded[0])
      ensures aborted ==> history == old(history) && index == old(index) && error == Some(Misaligned)
      ensures !aborted ==> error == old(error)
      ensures !aborted && yielded == [] ==> history == old(history) && index == old(index)
      ensures !aborted && yielded != [] ==>
        && history == old(history)[..old(index) + 1] + [EditedSnapshot(currentHtml, yielded)]
        && index == old(index) + 1
    {
      var originalHtmlBlock := "";
      var newHtmlBlock := "";
      var receivedOriginal := false;
      aborted := false;
      var i := 0;
      while i < |yielded| && !aborted
        invariant 0 <= i <= |yielded|
        invariant receivedOriginal <==> i > 0
        invariant i == 0 ==> newHtmlBlock == ""
        invariant i > 0 ==> originalHtmlBlock == yielded[0] && newHtmlBlock == Concat(yielded[1..i])
        invariant aborted ==>
          && i == 1 && !Includes(currentHtml, yielded[0])
          && history == old(history) && index == old(index) && error == Some(Misaligned)
        invariant !aborted ==> error == old(error)
        invariant !aborted && i == 0 ==> history == old(history) && index == old(index)
        invariant !aborted && i > 0 ==>
          && Includes(currentHtml, yielded[0])
          && history == old(history)[..old(index) + 1] + [EditedSnapshot(currentHtml, yielded[..i])]
          && index == old(index) + 1
      {
        var chunk := yielded[i];
        if !receivedOriginal {
          originalHtmlBlock := chunk;
          receivedOriginal := true;
          assert yielded[1..1] == [];
          if !Includes(currentHtml, originalHtmlBlock) {
            error := Some(Misaligned);
            aborted := true;
          } else {
            var newHistory := history[..index + 1];
            history := newHistory + [currentHtml];
            index := |newHistory|;
          }
        } else {
          EditedSnapshotStep(currentHtml, yielded, i);
          newHtmlBlock := newHtmlBlock + chunk;
          if originalHtmlBlock != "" {
            var updatedHtml := ReplaceFirst(currentHtml, originalHtmlBlock, newHtmlBlock);
            history := history[|history| - 1 := updatedHtml];
          }
        }
        i := i + 1;
      }
      if !aborted && i > 0 {
        assert yielded[..i] == yielded;
      }
    }

    /** The `try` of `handleEdit` on the current version: the error is
        cleared, the request is sent for the current version, and the decoded
        response is applied. */
    method TryEdit(editRequest: EditRequest, reply: Reply) returns (sent: string)
      requires Valid()
      modifies this`history, this`index, this`error
      ensures Valid()
      ensures sent == FullEditPrompt(old(history)[old(index)], editRequest)
      ensures EditOutcome(old(history), old(index), reply, history, index, error)
    {
      error := None;
      var currentHtml := history[index];
      var yielded, failure;
      sent, yielded, failure := StreamWebsiteEdit(currentHtml, editRequest, reply);
      var aborted := ApplyEditStream(currentHtml, yielded);
      if !aborted && failure.Some? {
        error := failure;
      }
    }

    /** `handleEdit`: without an instruction or a selection it only reports an
        error. Otherwise it sends the prompt for the current version and
        consumes the decoded response: if the original block is not in the
        current version nothing is added; else a copy of the current version
        is appended after it and made current, and overwritten as the new
        block grows. A failure after the copy was appended does not remove
        it. Whatever happens, the selection and the input are cleared. */
    method HandleEdit(reply: Reply) returns (sent: Option<string>)
      requires Valid()
      modifies this`history, this`index, this`error, this`selection, this`editInput, this`isEditing
      ensures Valid()
      ensures old(editInput) == "" || old(selection).None? ==>
        && sent == None
        && error == Some(NoEditInstruction)
        && history == old(history) && index == old(index)
        && selection == old(selection) && editInput == old(editInput) && isEditing == old(isEditing)
      ensures old(editInput) != "" && old(selection).Some? ==>
        && sent == Some(FullEditPrompt(old(history)[old(index)], EditRequestFor(old(selection).value, old(editInput))))
        && selection == None && editInput == "" && !isEditing
      ensures old(editInput) != "" && old(selection).Some? ==>
        EditOutcome(old(history), old(index), reply, history, index, error)
    {
      if editInput == "" || selection.None? {
        error := Some(NoEditInstruction);
        return None;
      }
      isEditing := true;
      var editPrompt := TryEdit(EditRequestFor(selection.value, editInput), reply);
      sent := Some(editPrompt);
      CloseEditDialog();
    }

    /** The `finally` of `handleEdit`: the edit is over, and the selection and
        the input are cleared. */
    method CloseEditDialog()
      modifies this`isEditing, this`selection, this`editInput
      ensures !isEditing && selection == None && editInput == ""
    {
      isEditing := false;
      selection := None;
      editInput := "";
    }

    /** `handleMessage`: outside edit mode every message is ignored; a selected
        element becomes the pending selection; selected text becomes the
        pending selection and pre-fills the input; other messages change nothing. */
    method HandleMessage(message: Message)
      modifies this`selection, this`editInput
      ensures !isEditMode || message.OtherMessage? ==>
        selection == old(selection) && editInput == old(editInput)
      ensures isEditMode && message.ElementSelected? ==>
        selection == Some(ElementSelection(message.selector)) && editInput == old(editInput)
      ensures isEditMode && message.TextSelected? ==>
        selection == Some(TextSelection(message.selector, message.text)) && editInput == message.text
    {
      if !isEditMode {
        return;
      }
      match message
      case ElementSelected(selector) =>
        selection := Some(ElementSelection(selector));
      case TextSelected(selector, text) =>
        selection := Some(TextSelection(selector, text));
        editInput := text;
      case OtherMessage =>
    }
  }
}
