/** The clean-up `get_gemini_code` applies to the backend's reply before the
    code is shown and run: trim it, and when it holds a triple-backtick fence
    keep the text between the first and second fence, or from the first
    fence to the end when there is no second, delete every `python` in it
    and trim again.
 */
module Extract {
  import opened Strings
  import Prompt

  const Fence := "```"
  const LanguageTag := "python"

  /** `cleaned.split('```')[1]`: the text after the first fence, up to the
      second fence or the end. Index 1 always exists once a fence occurs. */
  function FencedSegment(cleaned: string): (segment: string)
    requires Contains(cleaned, Fence)
    ensures !Contains(segment, Fence)
    ensures |segment| + |Fence| <= |cleaned|
  {
    var parts := Split(cleaned, Fence);
    SplitSpec(cleaned, Fence);
    assert Join(Fence, parts) == parts[0] + Fence + Join(Fence, parts[1..]);
    JoinLength(Fence, parts[1..]);
    parts[1]
  }

  /** A backtick is not whitespace, so trimming never cuts into a fence:
      the trimmed reply has one exactly when the raw reply has one. */
  lemma FenceSurvivesStrip(response: string)
    ensures Contains(Strip(response), Fence) <==> Contains(response, Fence)
  {
    StripKeepsOccurrence(response, Fence);
  }

  /** The code `get_gemini_code` returns for the backend's reply `response`.
      It never fails, and whichever way it goes the result carries no
      whitespace at either end. A reply whose trimmed form has no fence,
      which is the same as a reply with no fence anywhere, is only
      trimmed. */
  function ExtractCode(response: string): (code: string)
    ensures IsStripped(code)
    ensures |code| <= |response|
    ensures !Contains(Strip(response), Fence) ==> code == Strip(response)
    ensures !Contains(response, Fence) ==> code == Strip(response)
  {
    FenceSurvivesStrip(response);
    var cleaned := Strip(response);
    if Contains(cleaned, Fence) then
      ContainsOfStrip(response, Fence);
      var segment := FencedSegment(cleaned);
      Strip(RemoveAll(segment, LanguageTag))
    else
      cleaned
  }

  /** The segment kept from a fenced reply is exactly the text between the
      first fence and the next one, or to the end of the reply when there is
      no next one. */
  lemma SegmentBetweenFences(cleaned: string, i: int)
    requires FirstOccurrence(cleaned, Fence, i)
    ensures Contains(cleaned, Fence)
    ensures var after := cleaned[i + |Fence|..];
      && (!Contains(after, Fence) ==> FencedSegment(cleaned) == after)
      && (forall j :: FirstOccurrence(after, Fence, j) ==> FencedSegment(cleaned) == after[..j])
  {
    assert cleaned[i..i + |Fence|] == Fence;
    FindReportsFirst(cleaned, Fence, i);
    var after := cleaned[i + |Fence|..];
    assert Split(cleaned, Fence) == [cleaned[..i]] + Split(after, Fence);
    FirstPiece(after, Fence);
  }

  /** For a fenced reply: take the segment after the first fence of the
      trimmed reply, delete every `python` in it, trim what is left. */
  lemma FencedReplyIsSegment(response: string, i: int)
    requires FirstOccurrence(Strip(response), Fence, i)
    ensures var after := Strip(response)[i + |Fence|..];
      && (!Contains(after, Fence) ==>
            ExtractCode(response) == Strip(RemoveAll(after, LanguageTag)))
      && (forall j :: FirstOccurrence(after, Fence, j) ==>
            ExtractCode(response) == Strip(RemoveAll(after[..j], LanguageTag)))
  {
    SegmentBetweenFences(Strip(response), i);
  }

  /** Trimmed code without a fence passes through extraction unchanged, so
      extracting twice is extracting once whenever the first pass leaves no
      fence behind. */
  lemma PlainCodeIsFixed(code: string)
    requires IsStripped(code) && !Contains(code, Fence)
    ensures ExtractCode(code) == code
  {
    assert [] + code + [] == code;
    StripUnique([], code, []);
  }

  /** `get_gemini_code(user_input)` with the backend call supplied as
      `generate`: the reply to the prompt built from the request, cleaned
      up. The result is trimmed whatever the backend answers, and a reply
      without a fence is only trimmed. */
  function GetGeminiCode(userInput: string, generate: string -> string): (code: string)
    ensures IsStripped(code)
    ensures var reply := generate(Prompt.ApplyPromptTemplate(userInput));
      !Contains(Strip(reply), Fence) ==> code == Strip(reply)
    ensures var reply := generate(Prompt.ApplyPromptTemplate(userInput));
      !Contains(reply, Fence) ==> code == Strip(reply)
  {
    ExtractCode(generate(Prompt.ApplyPromptTemplate(userInput)))
  }
}
