/**
  The generation service as the application sees it: how an edit request is
  turned into a prompt, how upstream response chunks become the text stream
  of a generation, and how the streamed edit response
  `<original block>_|||_<new block>` is decoded into the original block
  followed by pieces of the new block.

  The network call itself is not modelled: the service's answer is a given
  `Reply`, either a rejection of the request with an error message or the
  sequence of chunks it streams and how that stream ends.
 */
module GeminiService {
  import opened Text

  /** The private delimiter between the original and the new block. */
  const Separator: string := "_|||_"

  const GenerateFailurePrefix: string := "Failed to generate website code. Details: "
  const EditFailurePrefix: string := "Failed to get edit stream. Details: "
  const InvalidFormat: string := "Could not apply edit. The AI returned an invalid response format."

  /** One chunk of a streamed response; only its text is read. */
  datatype Chunk = Chunk(text: string)

  /** How a response stream ends: normally, or with a transport error. */
  datatype StreamEnd = Completed | Broken(message: string)

  /** What the service does with a request. */
  datatype Reply =
    | Rejected(message: string)
    | Streamed(chunks: seq<Chunk>, end: StreamEnd)

  /** The text stream handed to the generate handler, or the error it throws. */
  datatype GenerateStream =
    | Opened(texts: seq<string>, end: StreamEnd)
    | OpenFailed(message: string)

  /** An edit request; the locator is `None` when the preview could not compute one. */
  datatype EditRequest =
    | ElementEdit(selector: Option<string>, prompt: string)
    | TextEdit(selector: Option<string>, originalText: string, newText: string)

  // ---------------------------------------------------------------------------
  // Prompt construction

  /** How a locator is interpolated into a template literal (`undefined` when missing). */
  function SelectorText(selector: Option<string>): string
  {
    match selector
    case None => "undefined"
    case Some(s) => s
  }

  const EditLead: string := "The user wants to edit "
  const SelectorIntro: string := "element identified by the CSS selector: `"
  const ElementLead: string := EditLead + "the " + SelectorIntro
  const ElementMiddle: string := "`. The user's instruction is: \""
  const TextLead: string := EditLead + "text within the " + SelectorIntro
  const TextMiddle: string := "`. The original text is: \""
  const TextNewText: string := "\". The new text should be: \""
  const TextTail: string := "\". Please replace the text while preserving the surrounding HTML structure."

  /** Where each part of a five-part concatenation sits. */
  lemma FiveParts(a: string, b: string, c: string, d: string, e: string)
    ensures var r := a + b + c + d + e;
      && |r| == |a| + |b| + |c| + |d| + |e|
      && r[..|a|] == a
      && r[|a|..|a| + |b|] == b
      && r[|a| + |b|..|a| + |b| + |c|] == c
      && r[|a| + |b| + |c|..|a| + |b| + |c| + |d|] == d
      && r[|r| - |e|..] == e
  {
  }

  /** The instruction sentence for one edit request. */
  function EditInstruction(request: EditRequest): string
  {
    match request
    case ElementEdit(selector, prompt) =>
      ElementLead + SelectorText(selector) + ElementMiddle + prompt + "\""
    case TextEdit(selector, originalText, newText) =>
      TextLead + SelectorText(selector) + TextMiddle + originalText + TextNewText + newText + TextTail
  }

  /** Where the locator, the user's instruction and the texts sit in the
      instruction sentence: an element edit quotes the instruction after the
      locator; a text edit quotes the original text, then the new text. */
  lemma EditInstructionLayout(request: EditRequest)
    ensures var r := EditInstruction(request);
      request.ElementEdit? ==>
      var sel := SelectorText(request.selector);
      var n := |ElementLead| + |sel| + |ElementMiddle|;
      && |r| == n + |request.prompt| + 1
      && r[..|ElementLead|] == ElementLead
      && r[|ElementLead|..|ElementLead| + |sel|] == sel
      && r[n..n + |request.prompt|] == request.prompt
      && r[|r| - 1] == '"'
    ensures var r := EditInstruction(request);
      request.TextEdit? ==>
      var sel := SelectorText(request.selector);
      var n := |TextLead| + |sel| + |TextMiddle|;
      var m := n + |request.originalText| + |TextNewText|;
      && |r| == m + |request.newText| + |TextTail|
      && r[..|TextLead|] == TextLead
      && r[|TextLead|..|TextLead| + |sel|] == sel
      && r[n..n + |request.originalText|] == request.originalText
      && r[m..m + |request.newText|] == request.newText
  {
    match request
    case ElementEdit(selector, prompt) =>
      FiveParts(ElementLead, SelectorText(selector), ElementMiddle, prompt, "\"");
    case TextEdit(selector, originalText, newText) =>
      var sel := SelectorText(selector);
      FiveParts(TextLead + sel + TextMiddle, originalText, TextNewText, newText, TextTail);
      FiveParts(TextLead, sel, TextMiddle, "", "");
  }

  /** The two kinds of request read differently from their first words on. */
  lemma InstructionKindsDiffer(a: EditRequest, b: EditRequest)
    requires a.ElementEdit? && b.TextEdit?
    ensures EditInstruction(a) != EditInstruction(b)
  {
    var i := |EditLead| + 1;
    var la := EditLead + "the ";
    var lb := EditLead + "text within the ";
    assert la[i] == 'h' && lb[i] == 'e';
    assert ElementLead == la + SelectorIntro && TextLead == lb + SelectorIntro;
    var a1 := ElementLead + SelectorText(a.selector);
    var a2 := a1 + ElementMiddle;
    var a3 := a2 + a.prompt;
    assert EditInstruction(a) == a3 + "\"";
    assert EditInstruction(a)[i] == a3[i] == a2[i] == a1[i] == ElementLead[i] == 'h';
    var b1 := TextLead + SelectorText(b.selector);
    var b2 := b1 + TextMiddle;
    var b3 := b2 + b.originalText;
    var b4 := b3 + TextNewText;
    var b5 := b4 + b.newText;
    assert EditInstruction(b) == b5 + TextTail;
    assert EditInstruction(b)[i] == b5[i] == b4[i] == b3[i] == b2[i] == b1[i] == TextLead[i] == 'e';
  }

  const HtmlOpening: string := "\nHere is the current HTML of the website:\n```html\n"
  const HtmlClosing: string := "\n```\n\n"
  const FormatReminder: string := "\n\nPlease apply this change and return the response in the required 'original_html" + Separator + "new_html' format.\n"

  /** The full prompt of an edit request. */
  function FullEditPrompt(currentHtml: string, request: EditRequest): string
  {
    HtmlOpening + currentHtml + HtmlClosing + EditInstruction(request) + FormatReminder
  }

  /** The full prompt holds the current document verbatim inside an html code
      fence, then the instruction, then the format reminder. */
  lemma FullEditPromptLayout(currentHtml: string, request: EditRequest)
    ensures var r := FullEditPrompt(currentHtml, request);
      var instruction := EditInstruction(request);
      var n := |HtmlOpening| + |currentHtml|;
      && |r| == n + |HtmlClosing| + |instruction| + |FormatReminder|
      && r[..|HtmlOpening|] == HtmlOpening
      && r[|HtmlOpening|..n] == currentHtml
      && r[n..n + |HtmlClosing|] == HtmlClosing
      && r[n + |HtmlClosing|..n + |HtmlClosing| + |instruction|] == instruction
      && r[|r| - |FormatReminder|..] == FormatReminder
  {
    FiveParts(HtmlOpening, currentHtml, HtmlClosing, EditInstruction(request), FormatReminder);
  }

  /** Two prompts for the same request are equal only when the documents are. */
  lemma FullEditPromptInjective(html1: string, html2: string, request: EditRequest)
    requires FullEditPrompt(html1, request) == FullEditPrompt(html2, request)
    ensures html1 == html2
  {
    var p := FullEditPrompt(html1, request);
    FullEditPromptLayout(html1, request);
    FullEditPromptLayout(html2, request);
    assert |html1| == |html2|;
    assert html1 == p[|HtmlOpening|..|HtmlOpening| + |html1|];
  }

  // ---------------------------------------------------------------------------
  // Whole-document generation

  /** The text of every upstream chunk, one value per chunk, in order. */
  function StreamToGenerator(chunks: seq<Chunk>): (texts: seq<string>)
    ensures |texts| == |chunks|
    ensures forall i :: 0 <= i < |chunks| ==> texts[i] == chunks[i].text
  {
    if chunks == [] then [] else [chunks[0].text] + StreamToGenerator(chunks[1..])
  }

  /** Opening a generation stream: a rejected request becomes an error with
      the service's message wrapped; otherwise the chunk texts are handed on
      with the stream's own ending (a transport error during the stream is
      passed on unwrapped). */
  function GenerateWebsiteCodeStream(reply: Reply): (r: GenerateStream)
    ensures reply.Rejected? <==> r.OpenFailed?
    ensures reply.Rejected? ==> r.message == GenerateFailurePrefix + reply.message
    ensures reply.Streamed? ==>
      && |r.texts| == |reply.chunks|
      && (forall i :: 0 <= i < |r.texts| ==> r.texts[i] == reply.chunks[i].text)
      && r.end == reply.end
  {
    match reply
    case Rejected(message) => OpenFailed(GenerateFailurePrefix + message)
    case Streamed(chunks, end) => Opened(StreamToGenerator(chunks), end)
  }

  // ---------------------------------------------------------------------------
  // Edit response decoding

  /** The values the edit decoder has yielded once it has consumed `texts`.
      Until the text read so far contains the separator nothing is yielded;
      on the chunk that completes the first separator it yields the text
      before it and, if not empty, the text after it; every later chunk is
      yielded as it is. */
  function EditYields(texts: seq<string>): seq<string>
    decreases |texts|
  {
    if texts == [] then []
    else
      var n := |texts| - 1;
      if Includes(Concat(texts[..n]), Separator) then EditYields(texts[..n]) + [texts[n]]
      else SplitAtSeparator(Concat(texts))
  }

  /** What the decoder yields when the buffer is searched: nothing when it
      does not contain the separator; otherwise the text before the first
      separator and, when not empty, the text after it. */
  function SplitAtSeparator(buffer: string): (r: seq<string>)
    ensures r == [] <==> !Includes(buffer, Separator)
    ensures r != [] ==> 1 <= |r| <= 2 && (|r| == 2 ==> r[1] != "")
  {
    var k := IndexOf(buffer, Separator);
    if k == -1 then []
    else
      var remaining := buffer[k + |Separator|..];
      [buffer[..k]] + if remaining != "" then [remaining] else []
  }

  /** The texts the decoder reads from a reply (none when it is rejected). */
  function ReplyTexts(reply: Reply): seq<string>
  {
    match reply
    case Rejected(_) => []
    case Streamed(chunks, _) => StreamToGenerator(chunks)
  }

  /** The error the edit stream ends with, if any: every failure, whether of
      the request, of the transport or of the response format, is wrapped in
      the same prefix; a response with no separator at all is a format error. */
  function EditFailure(reply: Reply): (f: Option<string>)
    ensures reply.Rejected? ==> f == Some(EditFailurePrefix + reply.message)
    ensures reply.Streamed? && reply.end.Broken? ==> f == Some(EditFailurePrefix + reply.end.message)
    ensures reply.Streamed? && reply.end.Completed? ==>
      (f == None <==> Includes(Concat(ReplyTexts(reply)), Separator))
    ensures reply.Streamed? && reply.end.Completed? && !Includes(Concat(ReplyTexts(reply)), Separator) ==>
      f == Some(EditFailurePrefix + InvalidFormat)
    ensures f.Some? ==> |f.value| >= |EditFailurePrefix| && f.value[..|EditFailurePrefix|] == EditFailurePrefix
  {
    match reply
    case Rejected(message) => Some(EditFailurePrefix + message)
    case Streamed(chunks, Broken(message)) => Some(EditFailurePrefix + message)
    case Streamed(chunks, Completed) =>
      if Includes(Concat(StreamToGenerator(chunks)), Separator) then None
      else Some(EditFailurePrefix + InvalidFormat)
  }

  /** The buffer/separator loop of `streamWebsiteEdit` over the chunks of a
      response: reports the values it yields and whether it found the separator. */
  method DecodeEdit(chunks: seq<Chunk>) returns (yielded: seq<string>, separatorFound: bool)
    ensures yielded == EditYields(StreamToGenerator(chunks))
    ensures separatorFound == Includes(Concat(StreamToGenerator(chunks)), Separator)
    ensures separatorFound <==> yielded != []
  {
    ghost var texts := StreamToGenerator(chunks);
    yielded := [];
    var buffer := "";
    separatorFound := false;
    var i := 0;
    while i < |chunks|
      invariant 0 <= i <= |chunks|
      invariant separatorFound == Includes(Concat(texts[..i]), Separator)
      invariant !separatorFound ==> buffer == Concat(texts[..i]) && yielded == []
      invariant yielded == EditYields(texts[..i])
    {
      var text := chunks[i].text;
      if separatorFound {
        EditYieldsPassOne(texts, i);
        yielded := yielded + [text];
      } else {
        EditYieldsSearch(texts, i);
        buffer := buffer + text;
        var separatorIndex := IndexOf(buffer, Separator);
        if separatorIndex != -1 {
          separatorFound := true;
          var originalHtmlBlock := buffer[..separatorIndex];
          var remaining := buffer[separatorIndex + |Separator|..];
          yielded := yielded + [originalHtmlBlock];
          if remaining != "" {
            yielded := yielded + [remaining];
          }
          assert yielded == SplitAtSeparator(buffer);
        }
      }
      i := i + 1;
    }
    assert texts[..i] == texts;
    EditYieldsEmpty(texts);
  }

  /** `streamWebsiteEdit`: the prompt sent for the request, the values the
      decoder yields from the reply, and the error the stream ends with. */
  method StreamWebsiteEdit(currentHtml: string, request: EditRequest, reply: Reply)
    returns (sent: string, yielded: seq<string>, failure: Option<string>)
    ensures sent == FullEditPrompt(currentHtml, request)
    ensures yielded == EditYields(ReplyTexts(reply))
    ensures failure == EditFailure(reply)
    ensures reply.Streamed? && reply.end.Completed? ==> (failure == None <==> yielded != [])
  {
    sent := FullEditPrompt(currentHtml, request);
    match reply
    case Rejected(message) =>
      yielded := [];
      failure := Some(EditFailurePrefix + message);
    case Streamed(chunks, end) =>
      var separatorFound;
      yielded, separatorFound := DecodeEdit(chunks);
      if end.Broken? {
        failure := Some(EditFailurePrefix + end.message);
      } else if !separatorFound {
        failure := Some(EditFailurePrefix + InvalidFormat);
      } else {
        failure := None;
      }
  }

  /** After the separator has been read, one more text is passed on as it is. */
  lemma EditYieldsPassOne(texts: seq<string>, i: nat)
    requires i < |texts| && Includes(Concat(texts[..i]), Separator)
    ensures Includes(Concat(texts[..i + 1]), Separator)
    ensures EditYields(texts[..i + 1]) == EditYields(texts[..i]) + [texts[i]]
  {
    ConcatStep(texts, i);
    assert texts[..i + 1][..i] == texts[..i];
    IncludesExtend(Concat(texts[..i]), texts[i], Separator);
  }

  /** Before the separator has been read, the new text is added to the buffer
      and what is yielded is what a search of the whole buffer finds. */
  lemma EditYieldsSearch(texts: seq<string>, i: nat)
    requires i < |texts| && !Includes(Concat(texts[..i]), Separator)
    ensures Concat(texts[..i + 1]) == Concat(texts[..i]) + texts[i]
    ensures EditYields(texts[..i + 1]) == SplitAtSeparator(Concat(texts[..i + 1]))
  {
    ConcatStep(texts, i);
    assert texts[..i + 1][..i] == texts[..i];
  }

  /** Nothing is yielded until the text read so far contains the separator. */
  lemma EditYieldsEmpty(texts: seq<string>)
    ensures EditYields(texts) == [] <==> !Includes(Concat(texts), Separator)
  {
    if texts != [] {
      var n := |texts| - 1;
      ConcatStep(texts, n);
      assert texts[..n + 1] == texts;
      if Includes(Concat(texts[..n]), Separator) {
        IncludesExtend(Concat(texts[..n]), texts[n], Separator);
      }
    }
  }

  /** Once the first `m` texts contain the separator, every later text is
      yielded verbatim, exactly once and in order, after what was yielded by then. */
  lemma {:induction false} EditYieldsPassThrough(texts: seq<string>, m: nat)
    requires m <= |texts|
    requires Includes(Concat(texts[..m]), Separator)
    ensures EditYields(texts) == EditYields(texts[..m]) + texts[m..]
    decreases |texts| - m
  {
    if m == |texts| {
      assert texts[..m] == texts;
    } else {
      var n := |texts| - 1;
      var init := texts[..n];
      assert texts[..n + 1] == texts;
      assert init[..m] == texts[..m];
      assert texts[..m] + texts[m..n] == init;
      assert init[m..] + [texts[n]] == texts[m..];
      EditYieldsPassThrough(init, m);
      ConcatAppend(texts[..m], texts[m..n]);
      IncludesExtend(Concat(texts[..m]), Concat(texts[m..n]), Separator);
      EditYieldsPassOne(texts, n);
    }
  }

  /** What was yielded after part of the response is a prefix of what is
      yielded after all of it: values are never retracted. */
  lemma EditYieldsPrefix(texts: seq<string>, m: nat)
    requires m <= |texts|
    ensures EditYields(texts[..m]) <= EditYields(texts)
  {
    if Includes(Concat(texts[..m]), Separator) {
      EditYieldsPassThrough(texts, m);
    } else {
      EditYieldsEmpty(texts[..m]);
    }
  }

  /** On the chunk where the separator first appears the decoder yields the
      original block and, only when it is not empty, the rest of the buffer. */
  lemma EditYieldsAtSeparator(texts: seq<string>, j: nat)
    requires j < |texts|
    requires !Includes(Concat(texts[..j]), Separator)
    requires Includes(Concat(texts[..j + 1]), Separator)
    ensures var first := EditYields(texts[..j + 1]);
      var s := Concat(texts[..j + 1]);
      var k := IndexOf(s, Separator);
      && 1 <= |first| <= 2
      && first[0] == s[..k]
      && (|first| == 2 <==> s[k + |Separator|..] != "")
      && (|first| == 2 ==> first[1] == s[k + |Separator|..])
      && EditYields(texts) == first + texts[j + 1..]
  {
    EditYieldsSearch(texts, j);
    EditYieldsPassThrough(texts, j + 1);
  }

  /** The first yielded value is the whole text up to the first separator,
      wherever the chunk boundaries fall. */
  lemma {:induction false} EditYieldsFirst(texts: seq<string>)
    requires Includes(Concat(texts), Separator)
    ensures EditYields(texts) != []
    ensures EditYields(texts)[0] == Concat(texts)[..IndexOf(Concat(texts), Separator)]
    decreases |texts|
  {
    var n := |texts| - 1;
    assert texts[..n + 1] == texts;
    if Includes(Concat(texts[..n]), Separator) {
      EditYieldsPassOne(texts, n);
      EditYieldsFirst(texts[..n]);
      IndexOfExtend(Concat(texts[..n]), texts[n], Separator);
    } else {
      EditYieldsSearch(texts, n);
    }
  }

  /** The values yielded after the first concatenate to the whole text after
      the first separator; a later separator stays inside the new block. */
  lemma {:induction false} EditYieldsRest(texts: seq<string>)
    requires Includes(Concat(texts), Separator)
    ensures EditYields(texts) != []
    ensures var s := Concat(texts);
      Concat(EditYields(texts)[1..]) == s[IndexOf(s, Separator) + |Separator|..]
    decreases |texts|
  {
    EditYieldsFirst(texts);
    var n := |texts| - 1;
    assert texts[..n + 1] == texts;
    var init := Concat(texts[..n]);
    if Includes(init, Separator) {
      EditYieldsPassOne(texts, n);
      EditYieldsRest(texts[..n]);
      RestGrows(EditYields(texts[..n]), init, texts[n]);
    } else {
      EditYieldsSearch(texts, n);
      var s := Concat(texts);
      var k := IndexOf(s, Separator);
      var remaining := s[k + |Separator|..];
      assert [remaining][..0] == [];
    }
  }

  /** Passing one more text on extends the concatenated new block by it. */
  lemma RestGrows(y: seq<string>, before: string, text: string)
    requires y != [] && Includes(before, Separator)
    requires Concat(y[1..]) == before[IndexOf(before, Separator) + |Separator|..]
    ensures var s := before + text;
      Concat((y + [text])[1..]) == s[IndexOf(s, Separator) + |Separator|..]
  {
    IndexOfExtend(before, text, Separator);
    assert (y + [text])[1..] == y[1..] + [text];
    ConcatAppend(y[1..], [text]);
    assert [text][..0] == [];
    var k := IndexOf(before, Separator);
    assert (before + text)[k + |Separator|..] == before[k + |Separator|..] + text;
  }

  /** The decoded edit does not depend on where the response was cut into
      chunks: two chunkings of the same text both fail, or yield the same
      original block and new blocks that concatenate to the same text. */
  lemma EditYieldsChunkingIrrelevant(a: seq<string>, b: seq<string>)
    requires Concat(a) == Concat(b)
    ensures EditYields(a) == [] <==> EditYields(b) == []
    ensures EditYields(a) != [] ==>
      && EditYields(a)[0] == EditYields(b)[0]
      && Concat(EditYields(a)[1..]) == Concat(EditYields(b)[1..])
  {
    EditYieldsEmpty(a);
    EditYieldsEmpty(b);
    if Includes(Concat(a), Separator) {
      EditYieldsFirst(a);
      EditYieldsFirst(b);
      EditYieldsRest(a);
      EditYieldsRest(b);
    }
  }
}
