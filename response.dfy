/** The handling of the remote classifier's reply in
    `analyze_resume_with_xai`, and the choice between the remote result and
    the keyword fallback.  The HTTP exchange is a parameter: the reply the
    service gives for a résumé text; `json.loads` is a parameter too. */
module ResponseParsing {
  import opened Wrappers
  import opened PyStr
  import opened Sequences
  import opened SkillModel
  import opened KeywordFallback

  const Fence := "```"

  /** A line whose trimmed form opens or closes a markdown code block. */
  predicate IsFenceLine(line: string)
  {
    StartsWith(Strip(line), Fence)
  }

  /** `[line for line in lines if not line.strip().startswith('```')]` */
  function KeptLines(lines: seq<string>): seq<string>
  {
    if lines == [] then []
    else
      var last := lines[|lines| - 1];
      KeptLines(lines[..|lines| - 1]) + (if IsFenceLine(last) then [] else [last])
  }

  /** The reply content with surrounding white space removed and, when it
      starts with a code fence, every fence line dropped. */
  function StripFences(content: string): string
  {
    var t := Strip(content);
    if StartsWith(t, Fence) then Join(KeptLines(Split(t, '\n')), '\n') else t
  }

  lemma {:induction false} KeptSubsequence(lines: seq<string>)
    ensures IsSubsequence(KeptLines(lines), lines)
  {
    if lines != [] {
      var init := lines[..|lines| - 1];
      var last := lines[|lines| - 1];
      KeptSubsequence(init);
      var k := KeptLines(lines);
      if IsFenceLine(last) {
        assert k == KeptLines(init);
      } else {
        assert k == KeptLines(init) + [last];
        assert k[..|k| - 1] == KeptLines(init);
        assert k[|k| - 1] == last;
      }
    }
  }

  lemma {:induction false} KeptMembers(lines: seq<string>)
    ensures forall l :: l in KeptLines(lines) <==> l in lines && !IsFenceLine(l)
  {
    if lines != [] {
      var init := lines[..|lines| - 1];
      KeptMembers(init);
      assert lines == init + [lines[|lines| - 1]];
    }
  }

  /** Every occurrence of a non-fence line is kept, and no fence line is. */
  lemma {:induction false} KeptCounts(lines: seq<string>)
    ensures forall l :: multiset(KeptLines(lines))[l] == if IsFenceLine(l) then 0 else multiset(lines)[l]
  {
    if lines != [] {
      var init := lines[..|lines| - 1];
      var last := lines[|lines| - 1];
      KeptCounts(init);
      assert lines == init + [last];
      assert multiset(lines) == multiset(init) + multiset{last};
      if IsFenceLine(last) {
        assert KeptLines(lines) == KeptLines(init);
      } else {
        assert KeptLines(lines) == KeptLines(init) + [last];
        assert multiset(KeptLines(lines)) == multiset(KeptLines(init)) + multiset{last};
      }
    }
  }

  /** The kept lines are the non-fence lines, every occurrence of each,
      unchanged and in order. */
  lemma KeptLinesSpec(lines: seq<string>)
    ensures IsSubsequence(KeptLines(lines), lines)
    ensures forall l :: l in KeptLines(lines) <==> l in lines && !IsFenceLine(l)
    ensures forall l :: multiset(KeptLines(lines))[l] == if IsFenceLine(l) then 0 else multiset(lines)[l]
  {
    KeptSubsequence(lines);
    KeptMembers(lines);
    KeptCounts(lines);
  }

  /** When the trimmed reply starts with a fence, the result is the
      non-fence lines joined by newlines: splitting it again gives exactly
      those lines (or nothing is left at all), and no line of it is a fence
      line.  Otherwise the reply is only trimmed. */
  lemma StripFencesSpec(content: string)
    ensures var t := Strip(content); var r := StripFences(content);
      && (!StartsWith(t, Fence) ==> r == t)
      && (StartsWith(t, Fence) ==>
            && (KeptLines(Split(t, '\n')) != [] ==> Split(r, '\n') == KeptLines(Split(t, '\n')))
            && (KeptLines(Split(t, '\n')) == [] ==> r == [])
            && forall l :: l in Split(r, '\n') ==> !IsFenceLine(l))
  {
    var t := Strip(content);
    var r := StripFences(content);
    if StartsWith(t, Fence) {
      var lines := Split(t, '\n');
      var kept := KeptLines(lines);
      KeptLinesSpec(lines);
      if kept != [] {
        forall i | 0 <= i < |kept|
          ensures '\n' !in kept[i]
        {
          assert kept[i] in lines;
        }
        SplitJoin(kept, '\n');
      } else {
        assert Split(r, '\n') == [[]];
        assert Strip([]) == [];
      }
    }
  }

  /** What the remote call gives back: a failure (transport error, error
      status, an empty `choices` list, a `content` that is null or not a
      string), a successful status whose body is not JSON, or the content of
      the first choice (`None` when its message has no `content` key, which
      then defaults to "{}"). */
  datatype Reply = CallFailed | BodyNotJson | Replied(content: Option<string>)

  /** Why `analyze_resume_with_xai` as written can raise: its JSON-error
      handler reads `content` before anything was assigned to it. */
  datatype AnalyzeFailure = UnboundContent

  /** Which path produced the record. */
  datatype Classification = Remote(record: SkillData) | Fallback(record: SkillData)

  function ReplyContent(content: Option<string>): string
  {
    if content.Some? then content.value else "{}"
  }

  /** `analyze_resume_with_xai` once the reply is known, as its handlers
      intend: the parsed record when the fence-stripped content parses, the
      keyword fallback when the call failed, the body is not JSON, or the
      content does not parse. */
  function AnalyzeResume(resumeText: string, reply: Reply, parse: string -> Option<SkillData>): Classification
  {
    match reply
    case CallFailed => Fallback(FallbackRecord(resumeText))
    case BodyNotJson => Fallback(FallbackRecord(resumeText))
    case Replied(content) =>
      var parsed := parse(StripFences(ReplyContent(content)));
      if parsed.Some? then Remote(parsed.value) else Fallback(FallbackRecord(resumeText))
  }

  /** `analyze_resume_with_xai` as written. A body that is not JSON makes
      `response.json()` raise a JSON decode error before `content` is
      assigned, and the handler for that error then reads `content`, so the
      call ends with an error that no sibling handler catches. */
  function AnalyzeResumeAsWritten(resumeText: string, reply: Reply,
                                  parse: string -> Option<SkillData>): Result<Classification, AnalyzeFailure>
  {
    match reply
    case CallFailed => Ok(Fallback(FallbackRecord(resumeText)))
    case BodyNotJson => Err(UnboundContent)
    case Replied(content) =>
      var parsed := parse(StripFences(ReplyContent(content)));
      if parsed.Some? then Ok(Remote(parsed.value)) else Ok(Fallback(FallbackRecord(resumeText)))
  }

  /** The code as written fails on a successful reply whose body is not
      JSON, where the intended behaviour is the keyword fallback. */
  lemma NonJsonBodyRaises(resumeText: string, parse: string -> Option<SkillData>)
    ensures AnalyzeResumeAsWritten(resumeText, BodyNotJson, parse) == Err(UnboundContent)
    ensures AnalyzeResume(resumeText, BodyNotJson, parse) == Fallback(FallbackRecord(resumeText))
  {
  }

  /** On every other reply the code as written never raises and agrees with
      the intended behaviour. */
  lemma AsWrittenAgreesElsewhere(resumeText: string, reply: Reply, parse: string -> Option<SkillData>)
    ensures AnalyzeResumeAsWritten(resumeText, reply, parse).Err? <==> reply.BodyNotJson?
    ensures !reply.BodyNotJson? ==>
      AnalyzeResumeAsWritten(resumeText, reply, parse) == Ok(AnalyzeResume(resumeText, reply, parse))
  {
  }

  /** `if self.api_key:` is true for a present, non-empty key. */
  predicate HasApiKey(apiKey: Option<string>)
  {
    apiKey.Some? && apiKey.value != []
  }

  /** The classification step of `generate_skill_tree`. */
  function Classify(resumeText: string, apiKey: Option<string>, remote: string -> Reply,
                    parse: string -> Option<SkillData>): Classification
  {
    if HasApiKey(apiKey) then AnalyzeResume(resumeText, remote(resumeText), parse)
    else Fallback(FallbackRecord(resumeText))
  }

  /** Classification never fails: the remote record is used exactly when a
      key is set, the call succeeded with a JSON body and its stripped content
      parsed, and is then the parsed record; in every other case, a body that
      is not JSON included, the record is exactly the keyword fallback's,
      with nothing of the reply in it. */
  lemma ClassifyOutcome(resumeText: string, apiKey: Option<string>, remote: string -> Reply,
                        parse: string -> Option<SkillData>)
    ensures var c := Classify(resumeText, apiKey, remote, parse);
      && (c.Remote? <==>
            && HasApiKey(apiKey) && remote(resumeText).Replied?
            && parse(StripFences(ReplyContent(remote(resumeText).content))).Some?)
      && (c.Remote? ==> c.record == parse(StripFences(ReplyContent(remote(resumeText).content))).value)
      && (c.Fallback? ==> c.record == FallbackRecord(resumeText))
  {
  }
}
