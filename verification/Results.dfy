/** Result snapshots, the values hooks leave behind, and what a batch of lone runs would yield. */
module Results {
  import opened Wrappers
  import Text = StreamText

  datatype Status =
    | Ok
    | InvalidArg
    | NotImplemented
    | UnsupportedTask
    | BadStructSize
    | Aborted
    | OtherError(code: nat)

  datatype Token = Token(id: int, text: seq<byte>, p: real, t0: int, t1: int, segment: int, word: int)

  datatype Word = Word(text: seq<byte>, t0: int, t1: int, segment: int, firstToken: int, nTokens: int)

  datatype Segment = Segment(text: seq<byte>, t0: int, t1: int, firstWord: int, nWords: int, firstToken: int,
                             nTokens: int, speaker: int)

  datatype SpeakerSegment = SpeakerSegment(t0: int, t1: int, speaker: int, p: real)

  /** The scratch slot every run writes into and the single-result accessors read. */
  datatype Scratch = Scratch(tokens: seq<Token>, words: seq<Word>, segments: seq<Segment>,
                             speakers: seq<SpeakerSegment>, fullText: seq<byte>, rawText: seq<byte>,
                             language: seq<byte>, kind: nat, hasResult: bool)

  const NO_RESULT: Scratch := Scratch([], [], [], [], [], [], [], 0, false)

  /** A slot in which no field carries anything. */
  predicate NoResult(s: Scratch) {
    && !s.hasResult && s.kind == 0
    && s.fullText == [] && s.rawText == [] && s.language == []
    && s.tokens == [] && s.words == [] && s.segments == [] && s.speakers == []
  }

  datatype Timings = Timings(mel: int, encode: int, decode: int)

  const NO_TIME: Timings := Timings(0, 0, 0)

  /** One captured utterance. */
  datatype ResultSet = ResultSet(scratch: Scratch, status: Status, timings: Timings)

  /** An utterance that produced nothing. */
  function Failure(status: Status): (slot: ResultSet)
    ensures slot.status == status && NoResult(slot.scratch) && slot.timings == Timings(0, 0, 0)
  {
    ResultSet(NO_RESULT, status, NO_TIME)
  }

  /** The session fields a family hook owns. */
  datatype Owned = Owned(scratch: Scratch, timings: Timings, revision: int,
                         committedSegments: int, committedWords: int, committedTokens: int,
                         audioInput: int, audioCommitted: int, wasAborted: bool, wasTruncated: bool)

  /** The owned fields right before a run or stream hook is called. */
  const CLEARED: Owned := Owned(NO_RESULT, NO_TIME, 0, 0, 0, 0, 0, 0, false, false)

  /** Owned fields that carry nothing from before. */
  predicate Blank(o: Owned) {
    && NoResult(o.scratch) && o.timings == Timings(0, 0, 0) && o.revision == 0
    && o.committedSegments == 0 && o.committedWords == 0 && o.committedTokens == 0
    && o.audioInput == 0 && o.audioCommitted == 0 && !o.wasAborted && !o.wasTruncated
  }

  /** The caller's update buffer. */
  datatype Update = Update(resultChanged: bool, revision: int, committedChanged: bool, tentativeChanged: bool,
                           isFinal: bool, audioCommitted: int)

  const CLEAN_UPDATE: Update := Update(false, 0, false, false, false, 0)

  datatype UpdateArg = Absent | BadSize | Present

  datatype StreamState = Idle | Active | Finished | Failed

  /** What a hook finds in the session, except batch results and last status, and the update buffer it is handed. */
  datatype Entry = Entry(owned: Owned, state: StreamState, cfg: Text.Config, view: Text.View, update: Option<Update>)

  /** Whatever a hook does: its status, the owned fields afterwards and what it wrote into the update buffer. */
  datatype HookResult = HookResult(status: Status, owned: Owned, update: Update)

  /** A family hook: any function of what it finds. */
  type Hook = Entry -> HookResult

  /** What a run hook finds, whatever happened in the session before. */
  function RunEntry(provider: Text.Provider): (entry: Entry)
    ensures Blank(entry.owned) && entry.state == Idle && entry.update == None
    ensures entry.cfg == Text.Config(Text.Auto, 0, provider) && entry.view == Text.View([], [], 0, [])
  {
    Entry(CLEARED, Idle, Text.Config(Text.Auto, 0, provider), Text.FRESH, None)
  }

  // Inputs of the dispatcher; each verdict is the answer of a check on the caller's parameters.

  datatype Extension = Extension(sizeOk: bool, accepted: bool)

  datatype RunParams = RunParams(sizeOk: bool, ext: Option<Extension>, common: Status, translate: bool,
                                 validated: Status)

  /** The policy as the raw integer the caller stored. */
  datatype StreamParams = StreamParams(sizeOk: bool, policyRaw: int, agreementN: nat, ext: Option<Extension>,
                                       validated: Status)

  /** One utterance of a run: is it well-formed, and what does the run hook make of it? */
  datatype Utterance = Utterance(pcm: bool, nSamples: int, hook: Hook) {
    predicate WellFormed() {
      pcm && nSamples > 0
    }
  }

  // The serial batch, utterance by utterance.

  /** What a lone run on the utterance leaves to be captured. */
  function Lone(u: Utterance, entry: Entry): ResultSet {
    var result := u.hook(entry);
    ResultSet(result.owned.scratch, result.status, result.owned.timings)
  }

  /** The slot of an utterance in a batch that was not aborted before it. */
  function Slot(u: Utterance, entry: Entry): ResultSet {
    if !u.WellFormed() then Failure(InvalidArg)
    else if Lone(u, entry).status.Ok? then Lone(u, entry)
    else Failure(Lone(u, entry).status)
  }

  /** Does the batch stop at utterance i, by the poll before it or by its own run? */
  ghost predicate AbortsAt(utts: seq<Utterance>, entry: Entry, polls: nat -> bool, i: nat)
    requires i < |utts|
  {
    polls(i) || (utts[i].WellFormed() && Lone(utts[i], entry).status == Aborted)
  }

  /** The slots of a batch whose first abort is at j, or that was never aborted when j is its size. */
  ghost predicate SlotsOf(slots: seq<ResultSet>, utts: seq<Utterance>, entry: Entry, polls: nat -> bool, j: nat) {
    && |slots| == |utts|
    && j <= |utts|
    && (forall i :: 0 <= i < j ==> !AbortsAt(utts, entry, polls, i) && slots[i] == Slot(utts[i], entry))
    && (j < |utts| ==> AbortsAt(utts, entry, polls, j))
    && (forall i :: j <= i < |utts| ==> slots[i] == Failure(Aborted))
  }

  /** The same slot by slot: each carries the status of its own utterance, and nothing else unless that is OK. */
  ghost predicate SlotIs(slot: ResultSet, u: Utterance, entry: Entry) {
    && slot.status == (if u.pcm && u.nSamples > 0 then u.hook(entry).status else InvalidArg)
    && if slot.status == Ok
       then slot.scratch == u.hook(entry).owned.scratch && slot.timings == u.hook(entry).owned.timings
       else NoResult(slot.scratch) && slot.timings == Timings(0, 0, 0)
  }

  ghost predicate SlotAborted(slot: ResultSet) {
    slot.status == Aborted && NoResult(slot.scratch) && slot.timings == Timings(0, 0, 0)
  }

  /** Before the stop every poll was quiet and no utterance ended aborted; from the stop on all slots are aborted. */
  ghost predicate SlotsStop(slots: seq<ResultSet>, utts: seq<Utterance>, entry: Entry, polls: nat -> bool, j: nat) {
    && |slots| == |utts| && j <= |utts|
    && (forall i :: 0 <= i < j ==> !polls(i) && SlotIs(slots[i], utts[i], entry) && slots[i].status != Aborted)
    && (forall i :: j <= i < |utts| ==> SlotAborted(slots[i]))
    && (j < |utts| ==> polls(j) || (utts[j].pcm && utts[j].nSamples > 0 && utts[j].hook(entry).status == Aborted))
  }

  lemma SlotsAre(slots: seq<ResultSet>, utts: seq<Utterance>, entry: Entry, polls: nat -> bool, j: nat)
    requires SlotsOf(slots, utts, entry, polls, j)
    ensures SlotsStop(slots, utts, entry, polls, j)
  {
    hide NoResult;
    forall i | 0 <= i < j
      ensures !polls(i) && SlotIs(slots[i], utts[i], entry) && slots[i].status != Aborted
    {
      assert !AbortsAt(utts, entry, polls, i) && slots[i] == Slot(utts[i], entry);
    }
  }

  /** The owned fields after the first n utterances of a serial batch: those the last run left. */
  function LeftAfter(utts: seq<Utterance>, entry: Entry, n: nat): Owned
    requires n <= |utts|
  {
    if n == 0 then CLEARED
    else if utts[n - 1].WellFormed() then utts[n - 1].hook(entry).owned
    else LeftAfter(utts, entry, n - 1)
  }

  /** The owned fields when the batch stops at j: a poll only raises the aborted flag, a run leaves its fields. */
  function LeftAtStop(utts: seq<Utterance>, entry: Entry, polls: nat -> bool, j: nat): Owned
    requires j <= |utts|
  {
    if j == |utts| then LeftAfter(utts, entry, j)
    else if polls(j) then LeftAfter(utts, entry, j).(wasAborted := true)
    else LeftAfter(utts, entry, j + 1)
  }

  /** The slots are a function of the utterances and the polls. */
  lemma SlotsUnique(slots: seq<ResultSet>, others: seq<ResultSet>, utts: seq<Utterance>, entry: Entry,
                    polls: nat -> bool, j: nat, k: nat)
    requires SlotsOf(slots, utts, entry, polls, j) && SlotsOf(others, utts, entry, polls, k)
    ensures j == k && slots == others
  {
    assert forall i :: 0 <= i < k ==> !AbortsAt(utts, entry, polls, i);
    assert j < |utts| ==> AbortsAt(utts, entry, polls, j);
    assert k < |utts| ==> AbortsAt(utts, entry, polls, k);
    assert j == k;
  }
}
