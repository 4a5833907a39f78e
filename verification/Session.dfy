/**
  * The session dispatcher: stream lifecycle, text commitment, single runs and batches around arbitrary family hooks.
  * A hook is a function of what it finds in the session; the dispatcher owns lifecycle, last status and the text view.
  */
module Session {
  import opened Wrappers
  import opened Results
  import Text = StreamText

  /** The family's hook table, as far as the dispatcher looks at it. */
  datatype Arch = Arch(provider: Text.Provider, begins: bool, feeds: bool, finalizes: bool, resets: bool,
                       runs: bool, batches: bool)

  datatype Model = Model(arch: Option<Arch>, supportsStreaming: bool, supportsTranslate: bool)

  datatype TextDelta = TextDelta(committedChanged: bool, tentativeChanged: bool)

  /** What the batched hook of a family does: its status, the slots it captured and the owned fields. */
  datatype BatchResult = BatchResult(status: Status, slots: seq<ResultSet>, owned: Owned)

  /** A call of the public surface with everything that decides its course. */
  datatype Call =
    | Begin(run: RunParams, stream: StreamParams, beginHook: Hook)
    | Feed(pcm: bool, nSamples: int, arg: UpdateArg, feedHook: Hook)
    | Finalize(finalArg: UpdateArg, finalizeHook: Hook)
    | Reset(resetHook: Entry -> Owned)
    | RunOne(u: Utterance, params: RunParams)
    | RunMany(arrays: bool, utts: seq<Utterance>, batchParams: RunParams, polls: nat -> bool,
              batchHook: Entry -> BatchResult)

  /** The committed text after a call, and how often the session had been cleared by then. */
  datatype Seen = Seen(epoch: nat, committed: seq<byte>)

  const MAX_AGREEMENT_N: nat := 32

  /** The update buffer as it is handed to a hook: clean, if the caller passed one. */
  function BufferOf(arg: UpdateArg): (buffer: Option<Update>)
    ensures arg == Present ==> buffer == Some(Update(false, 0, false, false, false, 0))
    ensures arg != Present ==> buffer == None
  {
    if arg == Present then Some(CLEAN_UPDATE) else None
  }

  /** What a hook left in the caller's update buffer, if there is one. */
  function FeedBuffer(result: HookResult, arg: UpdateArg): (buffer: Option<Update>)
    ensures buffer.Some? == (arg == Present) && (arg == Present ==> buffer.value == result.update)
  {
    if arg == Present then Some(result.update) else None
  }

  /** The same for finalize, which marks the buffer final whatever the hook did. */
  function FinalBuffer(result: HookResult, arg: UpdateArg): (buffer: Option<Update>)
    ensures buffer.Some? == (arg == Present)
    ensures arg == Present ==> buffer.value.isFinal && buffer.value.resultChanged == result.update.resultChanged
  {
    if arg == Present then Some(result.update.(isFinal := true)) else None
  }

  /** Until finalize the audio cursor of the update stays at zero under ON_FINALIZE. */
  function Withheld(update: Option<Update>, withhold: bool): Option<Update> {
    if withhold && update.Some? then Some(update.value.(audioCommitted := 0)) else update
  }

  /** What the begin hook of a stream finds, whatever happened in the session before. */
  function BeginEntry(stream: StreamParams, provider: Text.Provider): (entry: Entry)
    requires PolicyOf(stream.policyRaw).Some?
    ensures Blank(entry.owned) && entry.state == Active && entry.update == None
    ensures Some(entry.cfg.policy) == PolicyOf(stream.policyRaw)
    ensures entry.cfg.agreementN == stream.agreementN && entry.cfg.provider == provider
    ensures entry.view == Text.View([], [], 0, [])
  {
    var cfg := Text.Config(PolicyOf(stream.policyRaw).value, stream.agreementN, provider);
    Entry(CLEARED, Active, cfg, Text.FRESH, None)
  }

  function TokenTexts(tokens: seq<Token>): (texts: seq<seq<byte>>)
    ensures |texts| == |tokens| && forall i :: 0 <= i < |tokens| ==> texts[i] == tokens[i].text
  {
    seq(|tokens|, i requires 0 <= i < |tokens| => tokens[i].text)
  }

  function HypothesisOf(owned: Owned): (h: Text.Hypothesis)
    ensures h.hasResult == owned.scratch.hasResult && h.fullText == owned.scratch.fullText
    ensures h.words == |owned.scratch.words| && h.segments == |owned.scratch.segments|
    ensures h.committedTokens == owned.committedTokens && h.committedWords == owned.committedWords
    ensures h.committedSegments == owned.committedSegments && |h.tokens| == |owned.scratch.tokens|
  {
    Text.Hypothesis(owned.scratch.hasResult, owned.scratch.fullText, TokenTexts(owned.scratch.tokens),
                    |owned.scratch.words|, |owned.scratch.segments|,
                    owned.committedTokens, owned.committedWords, owned.committedSegments)
  }

  function PolicyOf(raw: int): (policy: Option<Text.Policy>)
    ensures policy.Some? <==> 0 <= raw <= 2
    ensures policy == Some(Text.OnFinalize) <==> raw == 1
    ensures policy == Some(Text.StablePrefix) <==> raw == 2
  {
    if raw == 0 then Some(Text.Auto) else if raw == 1 then Some(Text.OnFinalize)
    else if raw == 2 then Some(Text.StablePrefix) else None
  }

  /** The checks on a family extension: its header size, then its kind. */
  function ExtVerdict(ext: Option<Extension>): (st: Status)
    ensures st == BadStructSize <==> ext.Some? && !ext.value.sizeOk
    ensures st == InvalidArg <==> ext.Some? && ext.value.sizeOk && !ext.value.accepted
    ensures st == Ok || st == BadStructSize || st == InvalidArg
  {
    match ext
    case None => Ok
    case Some(e) => if !e.sizeOk then BadStructSize else if !e.accepted then InvalidArg else Ok
  }

  class Session {
    const model: Option<Model>

    // Owned by the family hooks.
    var scratch: Scratch
    var timings: Timings
    var revision: int
    var committedSegments: int
    var committedWords: int
    var committedTokens: int
    var audioInput: int
    var audioCommitted: int
    var wasAborted: bool
    var wasTruncated: bool

    // Owned by the dispatcher.
    var batchResults: seq<ResultSet>
    var streamState: StreamState
    var lastStatus: Status
    var policy: Text.Policy
    var agreementN: nat
    var committedText: seq<byte>
    var tentativeText: seq<byte>
    var tentativeStart: nat
    var history: seq<seq<byte>>

    /** The hypotheses of the successful feeds since the stream began, the one finalize saw, and a count of clears. */
    ghost var hyps: seq<Text.Hypothesis>
    ghost var closing: Text.Hypothesis
    ghost var epoch: nat

    function Owns(): Owned
      reads this`scratch, this`timings, this`revision, this`committedSegments, this`committedWords,
            this`committedTokens, this`audioInput, this`audioCommitted, this`wasAborted, this`wasTruncated
    {
      Owned(scratch, timings, revision, committedSegments, committedWords, committedTokens,
            audioInput, audioCommitted, wasAborted, wasTruncated)
    }

    function View(): Text.View
      reads this`committedText, this`tentativeText, this`tentativeStart, this`history
    {
      Text.View(committedText, tentativeText, tentativeStart, history)
    }

    function Provider(): (provider: Text.Provider)
      ensures model.Some? && model.value.arch.Some? ==> provider == model.value.arch.value.provider
      ensures model.None? || model.value.arch.None? ==> provider == Text.GenericAgreement
    {
      if model.Some? && model.value.arch.Some? then model.value.arch.value.provider else Text.GenericAgreement
    }

    function Cfg(): Text.Config
      reads this`policy, this`agreementN
    {
      Text.Config(policy, agreementN, Provider())
    }

    /** What a hook finds when it is called now. */
    function Entered(update: Option<Update>): Entry
      reads this
    {
      Entry(Owns(), streamState, Cfg(), View(), update)
    }

    /** What every run hook of this session finds. */
    function RunStart(): Entry {
      RunEntry(Provider())
    }

    lemma CfgIs()
      ensures Cfg().policy == policy && Cfg().agreementN == agreementN && Cfg().provider == Provider()
    {
    }

    /** Does the model stream: the capability and the required triple of hooks? */
    predicate Streams() {
      && model.Some? && model.value.supportsStreaming && model.value.arch.Some?
      && model.value.arch.value.begins && model.value.arch.value.feeds && model.value.arch.value.finalizes
    }

    predicate Resets() {
      model.Some? && model.value.arch.Some? && model.value.arch.value.resets
    }

    predicate Runs() {
      model.Some? && model.value.arch.Some? && model.value.arch.value.runs
    }

    /** What every sequence of calls keeps. */
    ghost predicate Valid()
      reads this
    {
      && (streamState == Failed <==> lastStatus != Ok)
      && (streamState == Active ==> Streams())
      && match streamState {
        case Idle => View() == Text.FRESH
        case Active => View() == Text.Feeds(Cfg(), hyps)
        case Failed => View() == Text.Feeds(Cfg(), hyps)
        case Finished => View() == Text.FinalizeView(Cfg(), Text.Feeds(Cfg(), hyps), closing)
      }
    }

    constructor (model: Option<Model>)
      ensures Valid() && this.model == model && streamState == Idle && batchResults == []
    {
      this.model := model;
      scratch, timings, revision := NO_RESULT, NO_TIME, 0;
      committedSegments, committedWords, committedTokens, audioInput, audioCommitted := 0, 0, 0, 0, 0;
      wasAborted, wasTruncated, batchResults, streamState, lastStatus := false, false, [], Idle, Ok;
      policy, agreementN, committedText, tentativeText, tentativeStart, history := Text.Auto, 0, [], [], 0, [];
      hyps, epoch := [], 0;
    }

    /** The text half of clear_result. */
    method ClearText()
      modifies this`policy, this`agreementN, this`committedText, this`tentativeText, this`tentativeStart, this`history
      ensures Cfg() == Text.Config(Text.Auto, 0, Provider()) && View() == Text.FRESH
    {
      policy, agreementN := Text.Auto, 0;
      committedText, tentativeText, tentativeStart, history := [], [], 0, [];
    }

    /** clear_result: everything that belongs to one utterance, but not the lifecycle, timings, flags or batch. */
    method ClearResult()
      modifies this
      ensures NoResult(scratch) && revision == committedSegments == committedWords == committedTokens == 0
      ensures audioInput == audioCommitted == 0 && committedText == [] && tentativeText == []
      ensures timings == old(timings) && wasAborted == old(wasAborted) && wasTruncated == old(wasTruncated)
      ensures Owns() ==
              CLEARED.(timings := old(timings), wasAborted := old(wasAborted), wasTruncated := old(wasTruncated))
      ensures lastStatus == Ok && Cfg() == Text.Config(Text.Auto, 0, Provider()) && View() == Text.FRESH
      ensures hyps == [] && epoch == old(epoch) + 1
      ensures streamState == old(streamState) && batchResults == old(batchResults)
    {
      Adopt(CLEARED.(timings := timings, wasAborted := wasAborted, wasTruncated := wasTruncated));
      lastStatus := Ok;
      ClearText();
      hyps, epoch := [], epoch + 1;
    }

    /** The start of every utterance: a clean slate apart from the batch. */
    method StartUtterance(next: StreamState)
      requires next != Failed
      modifies this
      ensures Owns() == CLEARED && View() == Text.FRESH && lastStatus == Ok && streamState == next
      ensures Cfg() == Text.Config(Text.Auto, 0, Provider())
      ensures hyps == [] && epoch == old(epoch) + 1 && batchResults == old(batchResults)
    {
      ClearResult();
      timings := NO_TIME;
      wasAborted, wasTruncated := false, false;
      streamState := next;
    }

    /** Replace the fields the hooks own, by a hook or by a clear. */
    method Adopt(owned: Owned)
      modifies this`scratch, this`timings, this`revision, this`committedSegments, this`committedWords,
               this`committedTokens, this`audioInput, this`audioCommitted, this`wasAborted, this`wasTruncated
      ensures Owns() == owned
    {
      scratch, timings, revision := owned.scratch, owned.timings, owned.revision;
      committedSegments, committedWords := owned.committedSegments, owned.committedWords;
      committedTokens := owned.committedTokens;
      audioInput, audioCommitted := owned.audioInput, owned.audioCommitted;
      wasAborted, wasTruncated := owned.wasAborted, owned.wasTruncated;
    }

    // Text commitment.

    function Hypothesis(): Text.Hypothesis
      reads this
    {
      HypothesisOf(Owns())
    }

    /** The tokens' text against the full text. */
    method TokenPrefixRawBytes(nTokens: int) returns (n: nat)
      requires nTokens == committedTokens
      ensures n == Text.TokenPrefix(Hypothesis())
    {
      if nTokens <= 0 || scratch.tokens == [] {
        return 0;
      }
      var capped := if nTokens < |scratch.tokens| then nTokens else |scratch.tokens|;
      var prefix := [];
      ghost var texts := TokenTexts(scratch.tokens);
      for i := 0 to capped
        invariant prefix == Text.Joined(texts[..i])
      {
        assert texts[..i + 1][..i] == texts[..i];
        prefix := prefix + scratch.tokens[i].text;
      }
      if prefix <= scratch.fullText {
        return |prefix|;
      }
      if prefix != [] && prefix[0] == 0x20 && (scratch.fullText == [] || scratch.fullText[0] != 0x20) {
        var normalized := prefix[1..];
        if normalized <= scratch.fullText {
          return |normalized|;
        }
        n := Text.CommonPrefixBytes(scratch.fullText, normalized);
        return;
      }
      n := Text.CommonPrefixBytes(scratch.fullText, prefix);
    }

    method FamilyCandidateRawBytes() returns (n: nat)
      ensures n == Text.FamilyCandidate(Hypothesis())
    {
      hide Text.TokenPrefix;
      if !scratch.hasResult {
        return 0;
      }
      if committedTokens > 0 {
        n := TokenPrefixRawBytes(committedTokens);
        return;
      }
      if committedWords > 0 && committedWords >= |scratch.words| {
        return |scratch.fullText|;
      }
      if committedSegments > 0 && committedSegments >= |scratch.segments| {
        return |scratch.fullText|;
      }
      return 0;
    }

    /** Remember the hypothesis, keeping only the last few. */
    method Record(needed: nat)
      requires needed >= 1
      modifies this`history
      ensures history == Text.LastN(old(history) + [scratch.fullText], needed)
    {
      hide Text.LastN;
      history := history + [scratch.fullText];
      while |history| > needed
        invariant Text.LastN(history, needed) == Text.LastN(old(history) + [scratch.fullText], needed)
      {
        Text.LastNDrops(history, needed);
        history := history[1..];
      }
      Text.LastNWhole(history, needed);
    }

    /** Remember the hypothesis and find where the last few all agree. */
    method GenericCandidateRawBytes() returns (n: nat)
      requires policy != Text.OnFinalize && Provider() == Text.GenericAgreement && |history| <= Text.EffectiveN(Cfg())
      modifies this`history
      ensures history == Text.NextHistory(Cfg(), old(history), Hypothesis())
      ensures n == Text.Candidate(Cfg(), history, Hypothesis())
    {
      hide Text.Agreed, Text.Floor, Text.LastN, TokenTexts;
      if !scratch.hasResult {
        return 0;
      }
      var needed := if agreementN == 0 then Text.DEFAULT_AGREEMENT_N else agreementN;
      if needed <= 1 {
        return |scratch.fullText|;
      }
      Record(needed);
      if |history| < needed {
        return 0;
      }
      n := AgreedBytes();
      n := Text.Utf8FloorBoundary(scratch.fullText, n);
    }

    method AgreedBytes() returns (n: nat)
      requires history != []
      ensures n == Text.Agreed(history[0], history)
    {
      hide Text.Floor, Text.CommonLen;
      n := |history[0]|;
      assert history[..0] == [];
      for i := 0 to |history|
        invariant n == Text.Agreed(history[0], history[..i])
      {
        assert history[..i + 1][..i] == history[..i];
        var common := Text.CommonPrefixBytes(history[0], history[i]);
        n := if common < n then common else n;
      }
      assert history[..|history|] == history;
    }

    method SelectedCandidateRawBytes() returns (n: nat)
      requires policy != Text.OnFinalize && |history| <= Text.EffectiveN(Cfg())
      modifies this`history
      ensures history == Text.NextHistory(Cfg(), old(history), Hypothesis())
      ensures n == Text.Candidate(Cfg(), history, Hypothesis())
    {
      hide Text.FamilyCandidate;
      if Provider() == Text.FamilyBoundary {
        n := FamilyCandidateRawBytes();
        FamilyNothing();
      } else {
        n := GenericCandidateRawBytes();
      }
    }

    lemma FamilyNothing()
      ensures !Hypothesis().hasResult ==> Text.FamilyCandidate(Hypothesis()) == 0
    {
    }

    /** Grow the committed text to the candidate's boundary if the hypothesis still starts with it. */
    method AppendCommittedRawPrefix(candidateBytes: nat) returns (grown: bool)
      requires scratch.hasResult && tentativeStart == |committedText|
      modifies this`committedText, this`tentativeStart
      ensures View() == Text.Appended(old(View()), scratch.fullText, candidateBytes)
      ensures grown <==> committedText != old(committedText)
    {
      hide Text.Floor;
      var raw := scratch.fullText;
      var oldBoundary := Text.Utf8FloorBoundary(raw, if tentativeStart < |raw| then tentativeStart else |raw|);
      var candidate := Text.Utf8FloorBoundary(raw, if candidateBytes < |raw| then candidateBytes else |raw|);
      if candidate <= oldBoundary {
        return false;
      }
      if oldBoundary != |committedText| {
        return false;
      }
      if raw[..oldBoundary] != committedText {
        return false;
      }
      committedText := committedText + raw[oldBoundary..candidate];
      tentativeStart := candidate;
      return true;
    }

    method FinalizeCommittedText() returns (changed: bool)
      modifies this`committedText, this`tentativeStart
      ensures View().(tentative := []) == Text.FinalizeView(Cfg(), old(View()), Hypothesis())
      ensures changed <==> committedText != old(committedText)
    {
      if !scratch.hasResult {
        return false;
      }
      if policy == Text.OnFinalize || committedText == [] {
        changed := committedText != scratch.fullText;
        committedText := scratch.fullText;
        tentativeStart := |scratch.fullText|;
        return;
      }
      if !(committedText <= scratch.fullText) {
        tentativeStart := |scratch.fullText|;
        return false;
      }
      var oldN := |committedText|;
      if |scratch.fullText| > oldN {
        committedText := committedText + scratch.fullText[oldN..];
        tentativeStart := |scratch.fullText|;
        return true;
      }
      tentativeStart := |scratch.fullText|;
      return false;
    }

    method ApplyStreamTextPolicy(isFinalize: bool) returns (delta: TextDelta)
      requires Text.Active(Cfg(), View())
      modifies this`committedText, this`tentativeText, this`tentativeStart, this`history
      ensures View() == if isFinalize then Text.FinalizeView(Cfg(), old(View()), Hypothesis())
                        else Text.FeedView(Cfg(), old(View()), Hypothesis())
      ensures delta.committedChanged <==> committedText != old(committedText)
      ensures delta.tentativeChanged <==> tentativeText != old(tentativeText)
    {
      hide Text.Floor, Text.Appended, Text.FinalizeView, Text.Candidate, Text.NextHistory, TokenTexts;
      var previousCommitted, previousTentative := committedText, tentativeText;
      var changed := false;
      if isFinalize {
        changed := FinalizeCommittedText();
        tentativeText := [];
        FinalizeTentative(old(View()), Hypothesis());
      } else if scratch.hasResult {
        var candidate := 0;
        if policy != Text.OnFinalize {
          candidate := SelectedCandidateRawBytes();
        } else {
          NothingSelected(history);
        }
        changed := AppendCommittedRawPrefix(candidate);
        var boundary := Text.Utf8FloorBoundary(
          scratch.fullText, if tentativeStart < |scratch.fullText| then tentativeStart else |scratch.fullText|);
        tentativeText := scratch.fullText[boundary..];
      } else {
        tentativeText := [];
      }
      delta := TextDelta(changed || committedText != previousCommitted, tentativeText != previousTentative);
    }

    lemma NothingSelected(past: seq<seq<byte>>)
      requires policy == Text.OnFinalize
      ensures Text.NextHistory(Cfg(), past, Hypothesis()) == past && Text.Candidate(Cfg(), past, Hypothesis()) == 0
    {
    }

    lemma FinalizeTentative(v: Text.View, h: Text.Hypothesis)
      ensures Text.FinalizeView(Cfg(), v, h).tentative == []
    {
    }

    // Streaming.

    /** The conditions under which stream_begin reaches the family hook, in no particular order. */
    predicate BeginAdmits(run: RunParams, stream: StreamParams)
      reads this`streamState
    {
      && run.sizeOk && stream.sizeOk && PolicyOf(stream.policyRaw).Some? && stream.agreementN <= MAX_AGREEMENT_N
      && streamState != Active && Streams()
      && run.common == Ok && !run.translate && ExtVerdict(stream.ext) == Ok && stream.validated == Ok
    }

    /** The state a hook sees on entry to begin. */
    method OpenStream(stream: StreamParams)
      requires PolicyOf(stream.policyRaw).Some?
      modifies this
      ensures Entered(None) == BeginEntry(stream, Provider()) && lastStatus == Ok
      ensures hyps == [] && epoch == old(epoch) + 1 && batchResults == old(batchResults)
    {
      StartUtterance(Active);
      policy, agreementN := PolicyOf(stream.policyRaw).value, stream.agreementN;
    }

    /** A stream starts: its begin hook is called on a fresh session. */
    method EnterStream(stream: StreamParams, hook: Hook) returns (result: HookResult)
      requires PolicyOf(stream.policyRaw).Some?
      modifies this
      ensures result == hook(BeginEntry(stream, Provider())) && Owns() == result.owned
      ensures View() == Text.FRESH && lastStatus == Ok && streamState == Active
      ensures Cfg() == BeginEntry(stream, Provider()).cfg
      ensures hyps == [] && epoch == old(epoch) + 1 && batchResults == old(batchResults)
    {
      hide Owns, View, Cfg, Provider, PolicyOf;
      OpenStream(stream);
      result := hook(Entered(None));
      Adopt(result.owned);
    }

    /** The later answers: capability, parameters, task, extension, the family's own validation. */
    predicate BeginAnswers(run: RunParams, stream: StreamParams, st: Status) {
      var streams := model.Some? && model.value.supportsStreaming && model.value.arch.Some?
        && model.value.arch.value.begins && model.value.arch.value.feeds && model.value.arch.value.finalizes;
      && (!streams ==> st == NotImplemented)
      && (streams && run.common != Ok ==> st == run.common)
      && (streams && run.common == Ok && run.translate ==> st == UnsupportedTask)
      && (streams && run.common == Ok && !run.translate ==>
            var ext := stream.ext;
            && (ext.Some? && !ext.value.sizeOk ==> st == BadStructSize)
            && (ext.Some? && ext.value.sizeOk && !ext.value.accepted ==> st == InvalidArg)
            && (ext.None? || (ext.value.sizeOk && ext.value.accepted) ==> st == stream.validated))
    }

    /** What stream_begin answers before any hook: shapes first, then arguments, capability, parameters, extension. */
    function BeginVerdict(run: RunParams, stream: StreamParams): (st: Status)
      reads this`streamState
      ensures st == Ok <==> BeginAdmits(run, stream)
      ensures !run.sizeOk || !stream.sizeOk ==> st == BadStructSize
      ensures run.sizeOk && stream.sizeOk ==>
        var fine := 0 <= stream.policyRaw <= 2 && stream.agreementN <= 32 && streamState != Active;
        if fine then BeginAnswers(run, stream, st) else st == InvalidArg
    {
      if !(run.sizeOk && stream.sizeOk) then BadStructSize
      else if PolicyOf(stream.policyRaw).None? || stream.agreementN > MAX_AGREEMENT_N then InvalidArg
      else if streamState == Active then InvalidArg
      else if !Streams() then NotImplemented
      else if run.common != Ok then run.common
      else if run.translate then UnsupportedTask
      else if ExtVerdict(stream.ext) != Ok then ExtVerdict(stream.ext)
      else stream.validated
    }

    method BeginChecks(run: RunParams, stream: StreamParams) returns (st: Status)
      ensures st == BeginVerdict(run, stream)
    {
      if !run.sizeOk || !stream.sizeOk {
        return BadStructSize;
      }
      if PolicyOf(stream.policyRaw).None? || stream.agreementN > MAX_AGREEMENT_N {
        return InvalidArg;
      }
      if streamState == Active {
        return InvalidArg;
      }
      if model.None? || model.value.arch.None? {
        return NotImplemented;
      }
      var arch := model.value.arch.value;
      if !model.value.supportsStreaming || !arch.begins || !arch.feeds || !arch.finalizes {
        return NotImplemented;
      }
      if run.common != Ok {
        return run.common;
      }
      if run.translate {
        return UnsupportedTask;
      }
      if ExtVerdict(stream.ext) != Ok {
        return ExtVerdict(stream.ext);
      }
      return stream.validated;
    }

    /** stream_begin: a rejection changes nothing; otherwise a fresh stream, failed if the hook refuses. */
    method StreamBegin(run: RunParams, stream: StreamParams, hook: Hook) returns (st: Status, reached: bool)
      requires Valid()
      modifies this
      ensures Valid()
      ensures reached <==> old(BeginAdmits(run, stream))
      ensures !reached ==> st == old(BeginVerdict(run, stream)) && st != Ok && unchanged(this)
      ensures reached ==>
        var result := hook(BeginEntry(stream, Provider())); st == result.status && Owns() == result.owned
      ensures reached ==> View() == Text.FRESH && hyps == []
      ensures reached ==> 0 <= stream.policyRaw <= 2 && agreementN == stream.agreementN <= 32
      ensures reached ==> (policy == Text.OnFinalize <==> stream.policyRaw == 1)
      ensures reached ==> (policy == Text.StablePrefix <==> stream.policyRaw == 2)
      ensures reached ==> streamState == (if st == Ok then Active else Failed) && lastStatus == st
      ensures reached ==> Cfg() == BeginEntry(stream, Provider()).cfg
      ensures reached ==> epoch == old(epoch) + 1 && batchResults == old(batchResults)
    {
      hide Text.Feeds, Text.FinalizeView, Owns, View, Cfg, Provider, PolicyOf, ExtVerdict, BeginAnswers;
      st := BeginChecks(run, stream);
      if st != Ok {
        return st, false;
      }
      var result := EnterStream(stream, hook);
      if result.status != Ok {
        streamState, lastStatus := Failed, result.status;
      }
      Text.FeedsNone(Cfg());
      CfgIs();
      return result.status, true;
    }

    /** Did anything a consumer can observe move between two states of the session? */
    twostate predicate Observable()
      reads this`scratch, this`committedText, this`tentativeText
    {
      || scratch.hasResult != old(scratch.hasResult) || scratch.fullText != old(scratch.fullText)
      || committedText != old(committedText) || tentativeText != old(tentativeText)
    }

    /** The revision law of a successful call, and what becomes of the buffer the hook left. */
    twostate predicate Published(result: HookResult, new before: Option<Update>, new update: Option<Update>)
      reads this`scratch, this`committedText, this`tentativeText, this`revision
    {
      && (revision != old(revision) <==>
            (result.owned.revision != old(revision) || Observable() || (before.Some? && before.value.resultChanged)))
      && (result.owned.revision != old(revision) ==> revision == result.owned.revision)
      && (revision == result.owned.revision || revision == old(revision) + 1)
      && update == if before.None? then None else Some(before.value.(
        resultChanged := revision != old(revision), revision := revision,
        committedChanged := committedText != old(committedText),
        tentativeChanged := tentativeText != old(tentativeText)))
    }

    method PublishObservableDelta(update: Option<Update>, previousRevision: int, previousFullText: seq<byte>,
                                  previousHasResult: bool, delta: TextDelta) returns (after: Option<Update>)
      modifies this`revision
      ensures after.Some? == update.Some?
      ensures var moved := scratch.hasResult != previousHasResult || scratch.fullText != previousFullText
          || delta.committedChanged || delta.tentativeChanged || (update.Some? && update.value.resultChanged);
        && (revision != previousRevision <==> old(revision) != previousRevision || moved)
        && (old(revision) != previousRevision ==> revision == old(revision))
        && (revision == old(revision) || revision == previousRevision + 1)
      ensures update.Some? ==>
        after.value == update.value.(resultChanged := revision != previousRevision, revision := revision,
                                     committedChanged := delta.committedChanged,
                                     tentativeChanged := delta.tentativeChanged)
    {
      var rawChanged := scratch.hasResult != previousHasResult || scratch.fullText != previousFullText;
      var observableChanged := rawChanged || delta.committedChanged || delta.tentativeChanged
        || (update.Some? && update.value.resultChanged);
      if observableChanged && revision == previousRevision {
        revision := revision + 1;
      }
      after := update;
      if after.Some? {
        after := Some(after.value.(
          resultChanged := after.value.resultChanged || observableChanged || revision != previousRevision,
          revision := revision));
        after := Some(after.value.(
          committedChanged := delta.committedChanged,
          tentativeChanged := delta.tentativeChanged));
      }
    }

    /** Until finalize nothing counts as committed under ON_FINALIZE. */
    method WithholdCounts()
      modifies this`committedTokens, this`committedWords, this`committedSegments
      ensures Owns() == if policy == Text.OnFinalize
                        then old(Owns()).(committedTokens := 0, committedWords := 0, committedSegments := 0)
                        else old(Owns())
    {
      if policy == Text.OnFinalize {
        committedTokens, committedWords, committedSegments := 0, 0, 0;
      }
    }

    /** The fields a successful feed leaves: what the hook made of them, counts withheld, the revision published. */
    function Shown(owned: Owned, revision: int, withhold: bool): Owned {
      if withhold
      then owned.(revision := revision, committedTokens := 0, committedWords := 0, committedSegments := 0)
      else owned.(revision := revision)
    }

    /** The text and counters after the feed hook succeeded. */
    method AfterFeed(result: HookResult) returns (delta: TextDelta)
      requires streamState == Active && Text.Active(Cfg(), View())
      modifies this`committedText, this`tentativeText, this`tentativeStart, this`history, this`hyps,
               this`scratch, this`timings, this`revision, this`committedSegments, this`committedWords,
               this`committedTokens, this`audioInput, this`audioCommitted, this`wasAborted, this`wasTruncated
      ensures View() == Text.FeedView(Cfg(), old(View()), HypothesisOf(result.owned))
      ensures hyps == old(hyps) + [HypothesisOf(result.owned)]
      ensures Owns() == Shown(result.owned, result.owned.revision, policy == Text.OnFinalize)
      ensures delta.committedChanged <==> committedText != old(committedText)
      ensures delta.tentativeChanged <==> tentativeText != old(tentativeText)
    {
      hide Text.FeedView, Text.FinalizeView, Text.Active, HypothesisOf;
      Adopt(result.owned);
      delta := ApplyStreamTextPolicy(false);
      hyps := hyps + [HypothesisOf(result.owned)];
      WithholdCounts();
    }

    /** A stream call that reached its hook and failed: the text view and the stream's past stay. */
    twostate predicate HookFailed(result: HookResult)
      reads this
    {
      && streamState == Failed && lastStatus == result.status && Owns() == result.owned
      && View() == old(View()) && Cfg() == old(Cfg()) && hyps == old(hyps)
    }

    /** The publication, in terms of the fields the hook left. */
    method Publish(update: Option<Update>, previousRevision: int, previousFullText: seq<byte>,
                   previousHasResult: bool, delta: TextDelta, result: HookResult, ghost withhold: bool)
      returns (after: Option<Update>)
      requires Owns() == Shown(result.owned, result.owned.revision, withhold)
      modifies this`revision
      ensures Owns() == Shown(result.owned, revision, withhold)
      ensures after.Some? == update.Some?
      ensures var moved := scratch.hasResult != previousHasResult || scratch.fullText != previousFullText
          || delta.committedChanged || delta.tentativeChanged || (update.Some? && update.value.resultChanged);
        && (revision != previousRevision <==> result.owned.revision != previousRevision || moved)
        && (result.owned.revision != previousRevision ==> revision == result.owned.revision)
        && (revision == result.owned.revision || revision == previousRevision + 1)
      ensures update.Some? ==>
        after.value == update.value.(resultChanged := revision != previousRevision, revision := revision,
                                     committedChanged := delta.committedChanged,
                                     tentativeChanged := delta.tentativeChanged)
    {
      after := PublishObservableDelta(update, previousRevision, previousFullText, previousHasResult, delta);
    }

    /** A hook of the active stream failed: its status is recorded. */
    method FailStream(result: HookResult)
      requires Valid() && streamState == Active && result.status != Ok
      modifies this
      ensures Valid() && HookFailed(result)
      ensures epoch == old(epoch) && batchResults == old(batchResults) && committedText == old(committedText)
    {
      hide Text.Feeds, Text.FinalizeView, Owns, View, Cfg, Provider, Streams;
      Adopt(result.owned);
      streamState, lastStatus := Failed, result.status;
    }

    lemma ActiveStream()
      requires Valid() && streamState == Active
      ensures Streams() && lastStatus == Ok && View() == Text.Feeds(Cfg(), hyps) && Text.Active(Cfg(), View())
    {
      Text.FeedsActive(Cfg(), hyps);
    }

    lemma FedStream()
      requires streamState == Active && Streams() && lastStatus == Ok && View() == Text.Feeds(Cfg(), hyps)
      ensures Valid()
    {
    }

    lemma FinishedStream()
      requires streamState == Finished && lastStatus == Ok
      requires View() == Text.FinalizeView(Cfg(), Text.Feeds(Cfg(), hyps), closing)
      ensures Valid()
    {
    }

    /** What a successful feed shows, field by field. */
    ghost predicate FeedShows(result: HookResult, arg: UpdateArg, update: Option<Update>)
      reads this
    {
      && scratch == result.owned.scratch && timings == result.owned.timings
      && wasAborted == result.owned.wasAborted && wasTruncated == result.owned.wasTruncated
      && audioInput == result.owned.audioInput && audioCommitted == result.owned.audioCommitted
      && update.Some? == (arg == Present)
      && if policy == Text.OnFinalize
         then
           && committedText == [] && committedTokens == committedWords == committedSegments == 0
           && (arg == Present ==> update.value.audioCommitted == 0)
         else
           && committedTokens == result.owned.committedTokens && committedWords == result.owned.committedWords
           && committedSegments == result.owned.committedSegments
           && (arg == Present ==> update.value.audioCommitted == result.update.audioCommitted)
    }

    /** A stream call that reached its hook and succeeded: the hypothesis joins the stream and moves the view. */
    twostate predicate FeedTook(result: HookResult, arg: UpdateArg, new update: Option<Update>)
      reads this
    {
      && streamState == Active && Cfg() == old(Cfg())
      && hyps == old(hyps) + [HypothesisOf(result.owned)]
      && View() == Text.FeedView(Cfg(), old(View()), HypothesisOf(result.owned))
      && Owns() == Shown(result.owned, revision, policy == Text.OnFinalize)
      && Published(result, Withheld(FeedBuffer(result, arg), policy == Text.OnFinalize), update)
    }

    /** The same for finalize, which settles the text. */
    twostate predicate FinalizeTook(result: HookResult, arg: UpdateArg, new update: Option<Update>)
      reads this
    {
      && streamState == Finished && Cfg() == old(Cfg()) && hyps == old(hyps)
      && View() == Text.FinalizeView(Cfg(), old(View()), HypothesisOf(result.owned))
      && Owns() == Shown(result.owned, revision, false)
      && Published(result, FinalBuffer(result, arg), update)
    }

    /** A successful feed: text policy, counters, publication. */
    method FeedSucceeded(arg: UpdateArg, result: HookResult) returns (update: Option<Update>)
      requires Valid() && streamState == Active && result.status == Ok
      modifies this
      ensures Valid() && epoch == old(epoch) && batchResults == old(batchResults)
      ensures FeedTook(result, arg, update) && FeedShows(result, arg, update)
    {
      hide Text.Feeds, Text.FeedView, Text.FinalizeView, Text.Active, View, Owns, Cfg, HypothesisOf, Shown;
      hide Streams, Provider, Valid, FeedShows;
      var previousRevision, previousFullText, previousHasResult := revision, scratch.fullText, scratch.hasResult;
      ActiveStream();
      Text.FeedsNext(Cfg(), hyps, HypothesisOf(result.owned));
      var delta := AfterFeed(result);
      update := FeedBuffer(result, arg);
      update := Publish(update, previousRevision, previousFullText, previousHasResult, delta, result,
                        policy == Text.OnFinalize);
      if update.Some? && policy == Text.OnFinalize {
        update := Some(update.value.(audioCommitted := 0));
      }
      FedStream();
      ShownFeed(result, arg, update, old(View()));
    }

    /**
      * stream_feed: a rejection changes nothing; a failing hook fails the stream; otherwise the view moves by
      * FeedView, and revision and update report exactly the observable changes.
      */
    method StreamFeed(pcm: bool, nSamples: int, arg: UpdateArg, hook: Hook)
      returns (st: Status, update: Option<Update>, reached: bool)
      requires Valid()
      modifies this
      ensures Valid() && epoch == old(epoch) && batchResults == old(batchResults)
      ensures reached <==> old(streamState) == Active && pcm && nSamples > 0 && arg != BadSize
      ensures !reached ==> st == (if arg == BadSize then BadStructSize else InvalidArg) && unchanged(this)
      ensures reached ==> st == hook(old(Entered(BufferOf(arg)))).status
      ensures var result := hook(old(Entered(BufferOf(arg))));
        if !reached then update == BufferOf(arg)
        else if st == Ok then FeedTook(result, arg, update)
        else HookFailed(result) && update == FeedBuffer(result, arg)
      ensures reached && st == Ok ==> FeedShows(hook(old(Entered(BufferOf(arg)))), arg, update)
      ensures old(committedText) <= committedText
    {
      hide Text.Feeds, Text.FeedView, Text.FinalizeView, Text.Active, Owns, View, Cfg, HypothesisOf, Shown;
      if arg == BadSize {
        return BadStructSize, None, false;
      }
      update := BufferOf(arg);
      if !pcm || nSamples <= 0 || streamState != Active {
        return InvalidArg, update, false;
      }
      var result := hook(Entered(update));
      if result.status != Ok {
        FailStream(result);
        return result.status, FeedBuffer(result, arg), true;
      }
      FeedGrows(HypothesisOf(result.owned));
      update := FeedSucceeded(arg, result);
      Committed();
      return Ok, update, true;
    }

    lemma ShownFeed(result: HookResult, arg: UpdateArg, update: Option<Update>, before: Text.View)
      requires Text.Active(Cfg(), before) && View() == Text.FeedView(Cfg(), before, HypothesisOf(result.owned))
      requires Owns() == Shown(result.owned, revision, policy == Text.OnFinalize)
      requires var buffer := Withheld(FeedBuffer(result, arg), policy == Text.OnFinalize);
        update.Some? == buffer.Some? && (update.Some? ==> update.value.audioCommitted == buffer.value.audioCommitted)
      ensures FeedShows(result, arg, update)
    {
      hide Text.FeedView;
      Text.FeedAppends(Cfg(), before, HypothesisOf(result.owned));
    }

    lemma FeedGrows(h: Text.Hypothesis)
      requires Valid() && streamState == Active
      ensures committedText <= Text.FeedView(Cfg(), View(), h).committed
    {
      Text.FeedsActive(Cfg(), hyps);
      Text.FeedAppends(Cfg(), View(), h);
    }

    lemma Committed()
      ensures committedText == View().committed && tentativeText == View().tentative
    {
    }

    /** What finalize does once its hook succeeded, up to the change of state. */
    method Settle(arg: UpdateArg, result: HookResult) returns (update: Option<Update>)
      requires streamState == Active && Text.Active(Cfg(), View()) && result.status == Ok
      modifies this`committedText, this`tentativeText, this`tentativeStart, this`history, this`closing,
               this`scratch, this`timings, this`revision, this`committedSegments, this`committedWords,
               this`committedTokens, this`audioInput, this`audioCommitted, this`wasAborted, this`wasTruncated
      ensures View() == Text.FinalizeView(Cfg(), old(View()), HypothesisOf(result.owned))
      ensures closing == HypothesisOf(result.owned)
      ensures Owns() == Shown(result.owned, revision, false)
      ensures Published(result, FinalBuffer(result, arg), update)
    {
      hide Text.FinalizeView, Text.Active, View, Owns, Cfg, HypothesisOf, Shown, Provider;
      var previousRevision, previousFullText, previousHasResult := revision, scratch.fullText, scratch.hasResult;
      var delta := AfterFinalize(result);
      update := FinalBuffer(result, arg);
      update := Publish(update, previousRevision, previousFullText, previousHasResult, delta, result, false);
    }

    /** The text after the finalize hook succeeded. */
    method AfterFinalize(result: HookResult) returns (delta: TextDelta)
      requires streamState == Active && Text.Active(Cfg(), View())
      modifies this`committedText, this`tentativeText, this`tentativeStart, this`history, this`closing,
               this`scratch, this`timings, this`revision, this`committedSegments, this`committedWords,
               this`committedTokens, this`audioInput, this`audioCommitted, this`wasAborted, this`wasTruncated
      ensures View() == Text.FinalizeView(Cfg(), old(View()), HypothesisOf(result.owned))
      ensures closing == HypothesisOf(result.owned)
      ensures Owns() == Shown(result.owned, result.owned.revision, false)
      ensures delta.committedChanged <==> committedText != old(committedText)
      ensures delta.tentativeChanged <==> tentativeText != old(tentativeText)
    {
      hide Text.FeedView, Text.FinalizeView, Text.Active, HypothesisOf;
      Adopt(result.owned);
      delta := ApplyStreamTextPolicy(true);
      closing := HypothesisOf(result.owned);
    }

    /** A successful finalize: settled text and the final state. */
    method FinishStream(arg: UpdateArg, result: HookResult) returns (update: Option<Update>)
      requires Valid() && streamState == Active && result.status == Ok
      modifies this
      ensures Valid() && epoch == old(epoch) && batchResults == old(batchResults)
      ensures FinalizeTook(result, arg, update) && old(committedText) <= committedText
      ensures tentativeText == []
    {
      hide Text.Feeds, Text.FeedView, Text.FinalizeView, Text.Active, Owns, View, Cfg, HypothesisOf, Shown, Valid;
      FinalizeGrows(HypothesisOf(result.owned));
      ActiveStream();
      update := Settle(arg, result);
      Committed();
      FinalizeTentative(old(View()), HypothesisOf(result.owned));
      streamState := Finished;
      FinishedStream();
    }

    /** stream_finalize: like a feed, but settling the text and ending the stream. */
    method StreamFinalize(arg: UpdateArg, hook: Hook) returns (st: Status, update: Option<Update>, reached: bool)
      requires Valid()
      modifies this
      ensures Valid() && epoch == old(epoch) && batchResults == old(batchResults)
      ensures reached <==> old(streamState) == Active && arg != BadSize
      ensures !reached ==> st == (if arg == BadSize then BadStructSize else InvalidArg) && unchanged(this)
      ensures reached ==> st == hook(old(Entered(BufferOf(arg)))).status
      ensures var result := hook(old(Entered(BufferOf(arg))));
        if !reached then update == BufferOf(arg)
        else if st == Ok then FinalizeTook(result, arg, update)
        else HookFailed(result) && update == FinalBuffer(result, arg)
      ensures reached && arg == Present ==> update.Some? && update.value.isFinal
      ensures reached && st == Ok ==> tentativeText == []
      ensures old(committedText) <= committedText
    {
      hide Text.Feeds, Text.FeedView, Text.FinalizeView, Text.Active, Owns, View, Cfg, HypothesisOf, Shown;
      if arg == BadSize {
        return BadStructSize, None, false;
      }
      if streamState != Active {
        return InvalidArg, BufferOf(arg), false;
      }
      var result := hook(Entered(BufferOf(arg)));
      if result.status != Ok {
        FailStream(result);
        return result.status, FinalBuffer(result, arg), true;
      }
      update := FinishStream(arg, result);
      return Ok, update, true;
    }

    lemma FinalizeGrows(h: Text.Hypothesis)
      requires Valid() && streamState == Active
      ensures committedText <= Text.FinalizeView(Cfg(), View(), h).committed
    {
      Text.FeedsActive(Cfg(), hyps);
      Text.FinalizeSettles(Cfg(), View(), h);
    }

    /** stream_reset, after the optional family hook: back to idle with nothing left of the stream. */
    method StreamReset(hook: Entry -> Owned)
      modifies this
      ensures Valid() && streamState == Idle && View() == Text.FRESH && lastStatus == Ok
      ensures var left := if Resets() then hook(old(Entered(None))) else old(Owns());
        Owns() == CLEARED.(timings := left.timings, wasTruncated := left.wasTruncated)
      ensures NoResult(scratch) && revision == 0 && committedText == [] && tentativeText == [] && !wasAborted
      ensures model.Some? && model.value.arch.Some? && model.value.arch.value.resets ==>
        var left := hook(old(Entered(None))); timings == left.timings && wasTruncated == left.wasTruncated
      ensures epoch == old(epoch) + 1 && batchResults == old(batchResults)
    {
      if Resets() {
        Adopt(hook(Entered(None)));
      }
      ClearResult();
      streamState := Idle;
      wasAborted := false;
    }

    // Single runs.

    /** The checks on the parameters shared by run and batch. */
    predicate ParamsAdmit(params: RunParams) {
      && params.sizeOk
      && (model.Some? && model.value.arch.Some? ==> ExtVerdict(params.ext) == Ok && params.validated == Ok)
      && (model.Some? ==> params.common == Ok && (params.translate ==> model.value.supportsTranslate))
    }

    /** The conditions under which a run gets past preflight. */
    predicate RunAdmits(u: Utterance, params: RunParams)
      reads this`streamState
    {
      u.WellFormed() && streamState != Active && ParamsAdmit(params)
    }

    /** The later answers: extension, parameters, task, the family's own validation. */
    predicate ParamAnswers(params: RunParams, st: Status) {
      var family := model.Some? && model.value.arch.Some?;
      var ext := params.ext;
      && (family && ext.Some? && !ext.value.sizeOk ==> st == BadStructSize)
      && (family && ext.Some? && ext.value.sizeOk && !ext.value.accepted ==> st == InvalidArg)
      && (!family || ext.None? || (ext.value.sizeOk && ext.value.accepted) ==>
            && (model.None? ==> st == Ok)
            && (model.Some? && params.common != Ok ==> st == params.common)
            && (model.Some? && params.common == Ok ==>
                  if params.translate && !model.value.supportsTranslate then st == UnsupportedTask
                  else if family then st == params.validated else st == Ok))
    }

    /** What run and batch answer to the shared parameters before anything is cleared. */
    function ParamVerdict(params: RunParams): (st: Status)
      reads this`streamState
      ensures st == Ok <==> ParamsAdmit(params) && streamState != Active
      ensures !params.sizeOk ==> st == BadStructSize
      ensures params.sizeOk && streamState == Active ==> st == InvalidArg
      ensures params.sizeOk && streamState != Active ==> ParamAnswers(params, st)
    {
      var family := model.Some? && model.value.arch.Some?;
      if !params.sizeOk then BadStructSize
      else if streamState == Active then InvalidArg
      else if family && ExtVerdict(params.ext) != Ok then ExtVerdict(params.ext)
      else if model.Some? && params.common != Ok then params.common
      else if model.Some? && params.translate && !model.value.supportsTranslate then UnsupportedTask
      else if family then params.validated
      else Ok
    }

    method ParamChecks(params: RunParams) returns (st: Status)
      ensures st == ParamVerdict(params)
    {
      if !params.sizeOk {
        return BadStructSize;
      }
      if streamState == Active {
        return InvalidArg;
      }
      if model.Some? && model.value.arch.Some? && ExtVerdict(params.ext) != Ok {
        return ExtVerdict(params.ext);
      }
      if model.Some? {
        if params.common != Ok {
          return params.common;
        }
        if params.translate && !model.value.supportsTranslate {
          return UnsupportedTask;
        }
        if model.value.arch.Some? {
          return params.validated;
        }
      }
      return Ok;
    }

    /** run_one_inner: a rejection changes nothing; otherwise the hook starts from a cleared, idle session. */
    method RunOneInner(u: Utterance, params: RunParams) returns (st: Status, reached: bool)
      requires Valid()
      modifies this
      ensures Valid() && batchResults == old(batchResults)
      ensures reached <==> old(RunAdmits(u, params))
      ensures !reached ==> st != Ok && unchanged(this)
      ensures !reached ==> st == if u.WellFormed() then old(ParamVerdict(params)) else InvalidArg
      ensures reached ==> streamState == Idle && View() == Text.FRESH && lastStatus == Ok && epoch == old(epoch) + 1
      ensures reached && model.Some? && model.value.arch.Some? && model.value.arch.value.runs ==>
        var result := u.hook(RunStart()); st == result.status && Owns() == result.owned
      ensures reached && (model.None? || model.value.arch.None? || !model.value.arch.value.runs) ==>
        st == NotImplemented && Blank(Owns())
    {
      hide Text.Feeds, Text.FinalizeView, Owns, View, Cfg, Provider, ParamsAdmit;
      if !u.pcm || u.nSamples <= 0 {
        return InvalidArg, false;
      }
      st := ParamChecks(params);
      if st != Ok {
        return st, false;
      }
      StartUtterance(Idle);
      if !Runs() {
        return NotImplemented, true;
      }
      var result := u.hook(Entered(None));
      Adopt(result.owned);
      return result.status, true;
    }

    /** transcribe_run: a single run also drops the results of the last batch, even when it is then rejected. */
    method Run(u: Utterance, params: RunParams) returns (st: Status, reached: bool)
      requires Valid()
      modifies this
      ensures Valid()
      ensures batchResults == if u.WellFormed() then [] else old(batchResults)
      ensures reached <==> old(RunAdmits(u, params))
      ensures !reached ==> st == if u.WellFormed() then old(ParamVerdict(params)) else InvalidArg
      ensures !reached ==> st != Ok && Owns() == old(Owns()) && View() == old(View()) && Cfg() == old(Cfg())
      ensures !reached ==> streamState == old(streamState) && lastStatus == old(lastStatus)
      ensures !reached ==> epoch == old(epoch) && hyps == old(hyps)
      ensures reached ==> streamState == Idle && View() == Text.FRESH && lastStatus == Ok && epoch == old(epoch) + 1
      ensures reached && model.Some? && model.value.arch.Some? && model.value.arch.value.runs ==>
        CaptureResult(st) == Lone(u, RunStart()) && Owns() == u.hook(RunStart()).owned
      ensures reached && (model.None? || model.value.arch.None? || !model.value.arch.value.runs) ==>
        st == NotImplemented && Blank(Owns())
    {
      hide Text.Feeds, Text.FinalizeView, View, Cfg, Provider, ParamsAdmit;
      if u.pcm && u.nSamples > 0 {
        batchResults := [];
      }
      st, reached := RunOneInner(u, params);
    }

    /** capture_result: the scratch slot as a standalone result. */
    function CaptureResult(st: Status): ResultSet
      reads this`scratch, this`timings
    {
      ResultSet(scratch, st, timings)
    }

    // Batches.

    method PollAbort(flag: bool) returns (aborted: bool)
      modifies this`wasAborted
      ensures aborted == flag && Owns() == if flag then old(Owns()).(wasAborted := true) else old(Owns())
    {
      if flag {
        wasAborted := true;
      }
      return flag;
    }

    /** Fill the batch up to n slots with aborted failures. */
    method PadAborted(n: nat)
      modifies this`batchResults
      ensures |old(batchResults)| <= |batchResults| && batchResults[..|old(batchResults)|] == old(batchResults)
      ensures |batchResults| == if n < |old(batchResults)| then |old(batchResults)| else n
      ensures forall i :: |old(batchResults)| <= i < |batchResults| ==> batchResults[i] == Failure(Aborted)
    {
      while |batchResults| < n
        invariant |old(batchResults)| <= |batchResults|
        invariant |batchResults| <= n || batchResults == old(batchResults)
        invariant batchResults[..|old(batchResults)|] == old(batchResults)
        invariant forall i :: |old(batchResults)| <= i < |batchResults| ==> batchResults[i] == Failure(Aborted)
      {
        batchResults := batchResults + [Failure(Aborted)];
      }
    }

    predicate BatchAdmits(arrays: bool, n: nat, params: RunParams)
      reads this`streamState
    {
      arrays && n > 0 && streamState != Active && ParamsAdmit(params) && Runs()
    }

    /** The serial loop: one run per utterance, stopping at the first abort. */
    method RunSerially(utts: seq<Utterance>, params: RunParams, polls: nat -> bool)
      returns (st: Status, ghost stop: nat)
      requires Valid() && streamState == Idle && View() == Text.FRESH && batchResults == []
      requires ParamsAdmit(params) && Runs() && Owns() == CLEARED
      modifies this
      ensures Valid() && streamState == Idle && epoch >= old(epoch)
      ensures stop <= |utts| && Owns() == LeftAtStop(utts, RunStart(), polls, stop)
      ensures stop <= |utts| && st == (if stop < |utts| then Aborted else Ok)
      ensures stop <= |batchResults| <= |utts| && (stop == |utts| ==> |batchResults| == |utts|)
      ensures forall i :: 0 <= i < stop ==>
        !AbortsAt(utts, RunStart(), polls, i) && batchResults[i] == Slot(utts[i], RunStart())
      ensures stop < |utts| ==> AbortsAt(utts, RunStart(), polls, stop)
      ensures forall i :: stop <= i < |batchResults| ==> batchResults[i] == Failure(Aborted)
    {
      hide Text.Feeds, Text.FinalizeView, View, Owns, Cfg, Provider, ParamsAdmit, Runs, RunStart, AbortsAt, Slot;
      var i := 0;
      while i < |utts|
        invariant i <= |utts|
        invariant Valid() && streamState == Idle && epoch >= old(epoch)
        invariant |batchResults| == i && Owns() == LeftAfter(utts, RunStart(), i)
        invariant forall k :: 0 <= k < i ==>
          !AbortsAt(utts, RunStart(), polls, k) && batchResults[k] == Slot(utts[k], RunStart())
      {
        var aborted := RunNext(utts, params, polls, i);
        if aborted {
          return Aborted, i;
        }
        i := i + 1;
      }
      return Ok, i;
    }

    /** One turn of the serial loop. */
    method RunNext(utts: seq<Utterance>, params: RunParams, polls: nat -> bool, i: nat) returns (aborted: bool)
      requires Valid() && streamState == Idle && i < |utts| && ParamsAdmit(params) && Runs()
      modifies this
      ensures Valid() && streamState == Idle && epoch >= old(epoch)
      ensures aborted == AbortsAt(utts, RunStart(), polls, i) && (polls(i) ==> aborted)
      ensures aborted ==> batchResults == old(batchResults) || batchResults == old(batchResults) + [Failure(Aborted)]
      ensures !aborted ==> batchResults == old(batchResults) + [Slot(utts[i], RunStart())]
      ensures Owns() ==
        if polls(i) then old(Owns()).(wasAborted := true)
        else if utts[i].WellFormed() then utts[i].hook(RunStart()).owned else old(Owns())
    {
      hide Text.Feeds, Text.FinalizeView, Cfg, Provider, ParamsAdmit, RunStart;
      aborted := PollAbort(polls(i));
      if aborted {
        return;
      }
      var st, reached := RunOneInner(utts[i], params);
      if st == Ok {
        batchResults := batchResults + [CaptureResult(st)];
        return false;
      }
      batchResults := batchResults + [Failure(st)];
      return st == Aborted;
    }

    /** Mirror a captured result in the scratch slot. */
    method RestoreScratch(rs: ResultSet)
      modifies this`scratch
      ensures Owns() == old(Owns()).(scratch := rs.scratch)
    {
      scratch := rs.scratch;
    }

    /**
      * transcribe_run_batch: a rejection changes nothing. Without a batched hook the slots are exactly those of
      * lone runs up to the first abort and aborted failures from there; the scratch slot mirrors the first.
      */
    method RunBatch(arrays: bool, utts: seq<Utterance>, params: RunParams, polls: nat -> bool,
                    hook: Entry -> BatchResult)
      returns (st: Status, reached: bool)
      requires Valid()
      modifies this
      ensures Valid()
      ensures reached <==> old(BatchAdmits(arrays, |utts|, params))
      ensures !reached ==> st != Ok && unchanged(this)
      ensures !reached && arrays && |utts| > 0 ==>
        st == if old(ParamVerdict(params)) != Ok then old(ParamVerdict(params)) else NotImplemented
      ensures reached ==> streamState == Idle && epoch > old(epoch)
      ensures reached ==> model.Some? && model.value.arch.Some? && model.value.arch.value.runs
      ensures reached && !model.value.arch.value.batches ==> exists j: nat ::
        && SlotsOf(batchResults, utts, RunStart(), polls, j)
        && SlotsStop(batchResults, utts, RunStart(), polls, j)
        && (j < |utts| && polls(j) ==> wasAborted)
        && st == (if j < |utts| then Aborted else Ok)
        && Owns() == LeftAtStop(utts, RunStart(), polls, j).(scratch := batchResults[0].scratch)
      ensures reached && model.value.arch.value.batches ==>
        st == hook(RunStart()).status && BatchTook(hook(RunStart()), |utts|)
    {
      hide Text.Feeds, Text.FinalizeView, View, Owns, Cfg, Provider, RunStart, ParamsAdmit;
      hide SlotsOf, SlotsStop, LeftAtStop;
      if !arrays || |utts| == 0 {
        return InvalidArg, false;
      }
      st := ParamChecks(params);
      if st != Ok {
        return st, false;
      }
      if !Runs() {
        return NotImplemented, false;
      }
      StartUtterance(Idle);
      batchResults := [];
      if Batched() {
        CleanEntry();
        st := RunBatched(|utts|, hook(Entered(None)));
        return st, true;
      }
      ghost var stop;
      st, stop := RunPadded(utts, params, polls);
      return st, true;
    }

    /** The serial path: the loop, the padding and the mirrored scratch slot. */
    method RunPadded(utts: seq<Utterance>, params: RunParams, polls: nat -> bool)
      returns (st: Status, ghost stop: nat)
      requires Valid() && streamState == Idle && View() == Text.FRESH && batchResults == [] && |utts| > 0
      requires ParamsAdmit(params) && Runs() && Owns() == CLEARED
      modifies this
      ensures Valid() && streamState == Idle && epoch >= old(epoch)
      ensures SlotsOf(batchResults, utts, RunStart(), polls, stop) && st == (if stop < |utts| then Aborted else Ok)
      ensures SlotsStop(batchResults, utts, RunStart(), polls, stop) && (stop < |utts| && polls(stop) ==> wasAborted)
      ensures Owns() == LeftAtStop(utts, RunStart(), polls, stop).(scratch := batchResults[0].scratch)
    {
      hide Text.Feeds, Text.FinalizeView, View, Owns, Cfg, Provider, RunStart, ParamsAdmit, AbortsAt, Slot, LeftAtStop;
      st, stop := RunSerially(utts, params, polls);
      if st == Aborted {
        PadAborted(|utts|);
      }
      RestoreScratch(batchResults[0]);
      assert SlotsOf(batchResults, utts, RunStart(), polls, stop);
      SlotsAre(batchResults, utts, RunStart(), polls, stop);
      AbortedFlag(utts, polls, stop);
    }

    lemma AbortedFlag(utts: seq<Utterance>, polls: nat -> bool, stop: nat)
      requires |batchResults| > 0 && stop <= |utts|
      requires Owns() == LeftAtStop(utts, RunStart(), polls, stop).(scratch := batchResults[0].scratch)
      ensures stop < |utts| && polls(stop) ==> wasAborted
    {
    }

    lemma OwnedScratch()
      ensures Owns().scratch == scratch
    {
    }

    lemma CleanEntry()
      requires Owns() == CLEARED && streamState == Idle && View() == Text.FRESH
      requires Cfg() == Text.Config(Text.Auto, 0, Provider())
      ensures Entered(None) == RunStart()
    {
    }

    predicate Batched() {
      model.Some? && model.value.arch.Some? && model.value.arch.value.batches
    }

    /** The slots a batched hook captured, filled up with aborted failures when it was aborted. */
    ghost predicate Padded(result: BatchResult, n: nat)
      reads this`batchResults
    {
      && |batchResults| >= |result.slots| && batchResults[..|result.slots|] == result.slots
      && |batchResults| == (if result.status == Aborted && |result.slots| < n then n else |result.slots|)
      && forall i :: |result.slots| <= i < |batchResults| ==> batchResults[i] == Failure(Aborted)
    }

    /** The batched hook's fields and slots were taken over, the scratch slot mirroring the first slot. */
    ghost predicate BatchTook(result: BatchResult, n: nat)
      reads this
    {
      && Padded(result, n)
      && Owns() == result.owned.(scratch := scratch)
      && scratch == if batchResults == [] then result.owned.scratch else batchResults[0].scratch
    }

    /** The fast path: the family's batched hook owns the loop. */
    method RunBatched(n: nat, result: BatchResult) returns (st: Status)
      requires Valid() && streamState == Idle && batchResults == []
      modifies this
      ensures Valid() && streamState == Idle && epoch == old(epoch) && st == result.status
      ensures BatchTook(result, n)
    {
      hide Text.Feeds, Text.FinalizeView, View, Cfg, Provider, Owns;
      Adopt(result.owned);
      batchResults := result.slots;
      if result.status == Aborted {
        PadAborted(n);
      }
      if batchResults != [] {
        RestoreScratch(batchResults[0]);
      }
      OwnedScratch();
      return result.status;
    }

    // Any sequence of calls.

    /** One call, whatever its arguments and whatever the hooks do. */
    method Perform(call: Call)
      requires Valid()
      modifies this
      ensures Valid() && epoch >= old(epoch)
      ensures epoch == old(epoch) ==> old(committedText) <= committedText
    {
      hide Text.Feeds, Text.FinalizeView, Text.FeedView, Text.Active, Owns, Cfg, Provider, Streams, Runs, ParamsAdmit;
      match call {
        case Begin(run, stream, hook) =>
          var _, _ := StreamBegin(run, stream, hook);
        case Feed(pcm, nSamples, arg, hook) =>
          var _, _, _ := StreamFeed(pcm, nSamples, arg, hook);
        case Finalize(arg, hook) =>
          var _, _, _ := StreamFinalize(arg, hook);
        case Reset(hook) =>
          StreamReset(hook);
        case RunOne(u, params) =>
          var _, _ := Run(u, params);
        case RunMany(arrays, utts, params, polls, hook) =>
          var _, _ := RunBatch(arrays, utts, params, polls, hook);
      }
    }

    /**
      * Over every sequence of calls the invariant holds, and between two clears of the session the committed
      * text seen earlier is a prefix of the committed text seen later.
      */
    method Replay(calls: seq<Call>) returns (ghost trace: seq<Seen>)
      requires Valid()
      modifies this
      ensures Valid() && |trace| == |calls| + 1
      ensures trace[0] == old(Seen(epoch, committedText)) && trace[|calls|] == Seen(epoch, committedText)
      ensures forall i, j :: 0 <= i <= j <= |calls| && trace[i].epoch == trace[j].epoch ==>
        trace[i].committed <= trace[j].committed
    {
      hide Valid;
      trace := [Seen(epoch, committedText)];
      for k := 0 to |calls|
        invariant Valid() && |trace| == k + 1
        invariant trace[0] == old(Seen(epoch, committedText)) && trace[k] == Seen(epoch, committedText)
        invariant forall i :: 0 <= i <= k ==> trace[i].epoch <= epoch
        invariant forall i, j :: 0 <= i <= j <= k && trace[i].epoch == trace[j].epoch ==>
          trace[i].committed <= trace[j].committed
      {
        Perform(calls[k]);
        assert forall i :: 0 <= i <= k && trace[i].epoch == epoch ==>
          trace[i].committed <= trace[k].committed <= committedText;
        trace := trace + [Seen(epoch, committedText)];
      }
    }

    /** The committed text of a stream fed and finalized with well-formed hypotheses is well-formed. */
    lemma CommittedWellFormed()
      requires Valid() && streamState != Idle
      requires forall i :: 0 <= i < |hyps| && hyps[i].hasResult ==> Text.WellFormed(hyps[i].fullText)
      requires streamState == Finished && closing.hasResult ==> Text.WellFormed(closing.fullText)
      ensures Text.WellFormed(committedText)
    {
      hide Text.WellFormed, Text.Feeds;
      Text.StreamWellFormed(Cfg(), hyps);
    }
  }

  /**
    * Isolation: whatever two sessions of one model did before, an OK slot of a serial batch in one is what a lone
    * run of that utterance leaves in the other.
    */
  method BatchLikeLone(a: Session, b: Session, utts: seq<Utterance>, params: RunParams, polls: nat -> bool,
                       hook: Entry -> BatchResult, i: nat)
    returns (batch: Status, reached: bool, lone: Status)
    requires a != b && a.model == b.model && a.Valid() && b.Valid() && b.streamState != Active
    requires i < |utts| && !a.Batched()
    modifies a, b
    ensures reached ==> |a.batchResults| == |utts|
    ensures reached && a.batchResults[i].status == Ok ==> lone == Ok && b.CaptureResult(lone) == a.batchResults[i]
  {
    hide Session.Valid, Session.View, Session.Owns, Session.Cfg;
    batch, reached := a.RunBatch(true, utts, params, polls, hook);
    var status, ran := b.Run(utts[i], params);
    lone := status;
  }
}
