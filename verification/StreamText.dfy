/**
  * Text commitment during streaming: an append-only committed text grown from hypotheses that may be rewritten
  * anywhere. The functions give the view after each call; the lemmas say what every stream can rely on.
  */
module StreamText {
  import opened Wrappers
  import opened Utf8

  datatype Policy = Auto | OnFinalize | StablePrefix

  /** Where the stable prefix comes from: the family's own boundary or agreement between hypotheses. */
  datatype Provider = FamilyBoundary | GenericAgreement

  datatype Config = Config(policy: Policy, agreementN: nat, provider: Provider)

  /** What a family hook leaves in the session for the text policy to read. */
  datatype Hypothesis = Hypothesis(hasResult: bool, fullText: seq<byte>, tokens: seq<seq<byte>>,
                                   words: nat, segments: nat,
                                   committedTokens: int, committedWords: int, committedSegments: int)

  datatype View = View(committed: seq<byte>, tentative: seq<byte>, start: nat, history: seq<seq<byte>>)

  const FRESH: View := View([], [], 0, [])

  // Byte positions.

  predicate AtBoundary(s: seq<byte>, pos: nat) {
    pos == 0 || pos >= |s| || !IsContinuation(s[pos])
  }

  /** The last boundary at or before pos. */
  function Floor(s: seq<byte>, pos: nat): (p: nat)
    ensures p <= |s| && p <= pos && AtBoundary(s, p)
    ensures forall q :: p < q <= pos && q <= |s| ==> !AtBoundary(s, q)
  {
    if pos >= |s| then |s|
    else if pos > 0 && IsContinuation(s[pos]) then Floor(s, pos - 1)
    else pos
  }

  /** Every boundary up to pos is at most the floor. */
  lemma FloorReaches(s: seq<byte>, pos: nat, q: nat)
    requires q <= pos && q <= |s| && AtBoundary(s, q)
    ensures q <= Floor(s, pos)
  {
  }

  method Utf8FloorBoundary(s: seq<byte>, pos: nat) returns (p: nat)
    ensures p == Floor(s, pos)
  {
    if pos >= |s| {
      return |s|;
    }
    p := pos;
    while p > 0 && IsContinuation(s[p])
      invariant p < |s| && Floor(s, p) == Floor(s, pos)
    {
      p := p - 1;
    }
  }

  /** How many leading bytes two texts share. */
  function CommonLen(a: seq<byte>, b: seq<byte>): (n: nat)
    ensures n <= |a| && n <= |b| && a[..n] == b[..n]
    ensures n == |a| || n == |b| || a[n] != b[n]
  {
    if a == [] || b == [] || a[0] != b[0] then 0 else
      var m := CommonLen(a[1..], b[1..]);
      assert a[..m + 1] == [a[0]] + a[1..][..m];
      assert b[..m + 1] == [b[0]] + b[1..][..m];
      m + 1
  }

  /** No longer prefix is shared. */
  lemma CommonIsLongest(a: seq<byte>, b: seq<byte>, p: seq<byte>)
    requires p <= a && p <= b
    ensures |p| <= CommonLen(a, b)
  {
    assert forall k :: 0 <= k < |p| ==> p[k] == a[k] && p[k] == b[k];
  }

  lemma SharedAt(a: seq<byte>, b: seq<byte>, n: nat)
    requires n <= |a| && n <= |b| && a[..n] == b[..n]
    ensures forall k :: 0 <= k < n ==> a[k] == b[k]
  {
    forall k | 0 <= k < n
      ensures a[k] == b[k]
    {
      assert a[..n][k] == b[..n][k];
    }
  }

  lemma CommonIs(a: seq<byte>, b: seq<byte>, i: nat)
    requires i <= |a| && i <= |b| && a[..i] == b[..i]
    requires i == |a| || i == |b| || a[i] != b[i]
    ensures CommonLen(a, b) == i
  {
    CommonIsLongest(a, b, a[..i]);
    SharedAt(a, b, CommonLen(a, b));
  }

  method CommonPrefixBytes(a: seq<byte>, b: seq<byte>) returns (p: nat)
    ensures p == Floor(a, CommonLen(a, b))
  {
    var n := if |a| < |b| then |a| else |b|;
    var i := 0;
    while i < n && a[i] == b[i]
      invariant i <= n && a[..i] == b[..i]
    {
      i := i + 1;
    }
    CommonIs(a, b, i);
    p := Utf8FloorBoundary(a, i);
  }

  // The family's boundary.

  function Joined(parts: seq<seq<byte>>): seq<byte> {
    if parts == [] then [] else Joined(parts[..|parts| - 1]) + parts[|parts| - 1]
  }

  /** The first byte of the text is a space that the full text does not start with. */
  predicate DropsSpace(prefix: seq<byte>, full: seq<byte>) {
    prefix != [] && prefix[0] == 0x20 && (full == [] || full[0] != 0x20)
  }

  /** How much of the full text the first tokens cover. */
  function TokenPrefix(h: Hypothesis): (n: nat)
    ensures n <= |h.fullText|
  {
    if h.committedTokens <= 0 || h.tokens == [] then 0 else
      var capped := if h.committedTokens < |h.tokens| then h.committedTokens else |h.tokens|;
      var prefix := Joined(h.tokens[..capped]);
      if prefix <= h.fullText then |prefix|
      else if DropsSpace(prefix, h.fullText) then
        if prefix[1..] <= h.fullText then |prefix| - 1
        else Floor(h.fullText, CommonLen(h.fullText, prefix[1..]))
      else Floor(h.fullText, CommonLen(h.fullText, prefix))
  }

  function FamilyCandidate(h: Hypothesis): (n: nat)
    ensures n <= |h.fullText|
  {
    if !h.hasResult then 0
    else if h.committedTokens > 0 then TokenPrefix(h)
    else if h.committedWords > 0 && h.committedWords >= h.words then |h.fullText|
    else if h.committedSegments > 0 && h.committedSegments >= h.segments then |h.fullText|
    else 0
  }

  /** What the family commits is text of its committed tokens, up to one leading space. */
  lemma TokenPrefixIsTokenText(h: Hypothesis)
    requires h.committedTokens > 0
    ensures var said := Joined(h.tokens[..if h.committedTokens < |h.tokens| then h.committedTokens else |h.tokens|]);
      var kept := h.fullText[..TokenPrefix(h)];
      kept <= said || (said != [] && said[0] == 0x20 && kept <= said[1..])
  {
    if h.tokens == [] {
      assert h.tokens[..0] == [];
    }
  }

  /** The text of the tokens the family committed, as far as there are that many. */
  function Said(h: Hypothesis): (said: seq<byte>)
    ensures h.committedTokens <= 0 ==> said == []
    ensures 0 < h.committedTokens < |h.tokens| ==> said == Joined(h.tokens[..h.committedTokens])
    ensures h.committedTokens >= |h.tokens| ==> said == Joined(h.tokens)
  {
    if h.committedTokens <= 0 then []
    else if h.committedTokens < |h.tokens| then Joined(h.tokens[..h.committedTokens])
    else
      assert h.tokens[..|h.tokens|] == h.tokens;
      Joined(h.tokens)
  }

  lemma JoinedNext(parts: seq<seq<byte>>, part: seq<byte>)
    ensures Joined([]) == [] && Joined(parts + [part]) == Joined(parts) + part
  {
    assert (parts + [part])[..|parts|] == parts;
  }

  /** Committing by tokens keeps exactly the token text that the full text starts with, else what they share. */
  lemma TokenPrefixKeeps(h: Hypothesis)
    requires h.committedTokens > 0 && h.tokens != []
    ensures Said(h) <= h.fullText ==> TokenPrefix(h) == |Said(h)|
    ensures !(Said(h) <= h.fullText) && DropsSpace(Said(h), h.fullText) && Said(h)[1..] <= h.fullText ==>
      TokenPrefix(h) == |Said(h)| - 1
    ensures !DropsSpace(Said(h), h.fullText) ==>
      forall p :: p <= h.fullText && p <= Said(h) && AtBoundary(h.fullText, |p|) ==> |p| <= TokenPrefix(h)
  {
    assert h.tokens[..|h.tokens|] == h.tokens;
    hide Joined, Floor, CommonLen;
    forall p | p <= h.fullText && p <= Said(h) && AtBoundary(h.fullText, |p|) && !DropsSpace(Said(h), h.fullText)
      ensures |p| <= TokenPrefix(h)
    {
      CommonIsLongest(h.fullText, Said(h), p);
      FloorReaches(h.fullText, CommonLen(h.fullText, Said(h)), |p|);
    }
  }

  /** What a family commits: by tokens if it counts any, else everything once all words or all segments are. */
  lemma FamilyCandidateIs(h: Hypothesis)
    requires h.hasResult
    ensures h.committedTokens > 0 && h.tokens != [] && Said(h) <= h.fullText ==> FamilyCandidate(h) == |Said(h)|
    ensures h.committedTokens <= 0 && h.committedWords > 0 && h.committedWords >= h.words ==>
      FamilyCandidate(h) == |h.fullText|
    ensures h.committedTokens <= 0 && h.committedSegments > 0 && h.committedSegments >= h.segments ==>
      FamilyCandidate(h) == |h.fullText|
    ensures h.committedTokens <= 0 ==>
      (h.committedWords <= 0 || h.committedWords < h.words) ==>
      (h.committedSegments <= 0 || h.committedSegments < h.segments) ==> FamilyCandidate(h) == 0
  {
    hide TokenPrefix, Said;
    if h.committedTokens > 0 && h.tokens != [] {
      TokenPrefixKeeps(h);
    }
  }

  // Agreement between hypotheses.

  const DEFAULT_AGREEMENT_N: nat := 3

  function EffectiveN(cfg: Config): (n: nat)
    ensures n >= 1 && (cfg.agreementN == 0 ==> n == 3) && (cfg.agreementN > 0 ==> n == cfg.agreementN)
  {
    if cfg.agreementN == 0 then DEFAULT_AGREEMENT_N else cfg.agreementN
  }

  function LastN(texts: seq<seq<byte>>, n: nat): (recent: seq<seq<byte>>)
    ensures |recent| <= |texts| && |recent| == if n < |texts| then n else |texts|
    ensures forall i :: 0 <= i < |recent| ==> recent[i] == texts[|texts| - |recent| + i]
  {
    if |texts| > n then texts[|texts| - n..] else texts
  }

  predicate SharesPrefix(front: seq<byte>, text: seq<byte>, n: nat) {
    n <= |front| && n <= |text| && front[..n] == text[..n]
  }

  lemma SharesShorter(front: seq<byte>, text: seq<byte>, n: nat, m: nat)
    requires SharesPrefix(front, text, n) && m <= n
    ensures SharesPrefix(front, text, m)
  {
    assert front[..m] == front[..n][..m] && text[..m] == text[..n][..m];
  }

  lemma LastNDrops(texts: seq<seq<byte>>, n: nat)
    requires |texts| > n
    ensures LastN(texts[1..], n) == LastN(texts, n)
  {
  }

  lemma LastNWhole(texts: seq<seq<byte>>, n: nat)
    requires |texts| <= n
    ensures LastN(texts, n) == texts
  {
  }

  /** How much of the front text all the texts agree on, cut at a boundary. */
  function Agreed(front: seq<byte>, texts: seq<seq<byte>>): (n: nat)
    ensures n <= |front| && AtBoundary(front, n)
  {
    if texts == [] then |front| else
      var before := Agreed(front, texts[..|texts| - 1]);
      var common := Floor(front, CommonLen(front, texts[|texts| - 1]));
      if common < before then common else before
  }

  lemma {:induction false} AgreedIsShared(front: seq<byte>, texts: seq<seq<byte>>, i: nat)
    requires i < |texts|
    ensures SharesPrefix(front, texts[i], Agreed(front, texts))
  {
    var n := |texts| - 1;
    var before, common := Agreed(front, texts[..n]), CommonLen(front, texts[n]);
    if i < n {
      AgreedIsShared(front, texts[..n], i);
      SharesShorter(front, texts[i], before, Agreed(front, texts));
    } else {
      assert SharesPrefix(front, texts[n], common);
      SharesShorter(front, texts[n], common, Agreed(front, texts));
    }
  }

  /** A boundary of the front text on which everything agrees is within the agreed part. */
  lemma {:induction false} AgreedIsLongest(front: seq<byte>, texts: seq<seq<byte>>, p: seq<byte>)
    requires p <= front && AtBoundary(front, |p|) && forall i :: 0 <= i < |texts| ==> p <= texts[i]
    ensures |p| <= Agreed(front, texts)
  {
    if texts != [] {
      var last := texts[|texts| - 1];
      AgreedIsLongest(front, texts[..|texts| - 1], p);
      CommonIsLongest(front, last, p);
      FloorReaches(front, CommonLen(front, last), |p|);
    }
  }

  /** Does the generic provider compare hypotheses at all? */
  predicate Compares(cfg: Config) {
    cfg.policy != OnFinalize && cfg.provider == GenericAgreement && EffectiveN(cfg) >= 2
  }

  function NextHistory(cfg: Config, history: seq<seq<byte>>, h: Hypothesis): seq<seq<byte>> {
    if h.hasResult && Compares(cfg) then LastN(history + [h.fullText], EffectiveN(cfg)) else history
  }

  /** The candidate the policy selects, given the history that already includes this hypothesis. */
  function Candidate(cfg: Config, history: seq<seq<byte>>, h: Hypothesis): nat {
    if !h.hasResult || cfg.policy == OnFinalize then 0
    else if cfg.provider == FamilyBoundary then FamilyCandidate(h)
    else if EffectiveN(cfg) <= 1 then |h.fullText|
    else if |history| < EffectiveN(cfg) || history == [] then 0
    else Floor(h.fullText, Agreed(history[0], history))
  }

  // The view after each call.

  /** The committed text and start after appending up to the candidate, when that is possible. */
  function Appended(v: View, raw: seq<byte>, candidate: nat): View {
    var from := Floor(raw, if v.start < |raw| then v.start else |raw|);
    var to := Floor(raw, if candidate < |raw| then candidate else |raw|);
    if to <= from || from != |v.committed| || raw[..from] != v.committed then v
    else v.(committed := v.committed + raw[from..to], start := to)
  }

  function FeedView(cfg: Config, v: View, h: Hypothesis): View {
    if !h.hasResult then v.(tentative := []) else
      var history := NextHistory(cfg, v.history, h);
      var w := Appended(v.(history := history), h.fullText, Candidate(cfg, history, h));
      w.(tentative := h.fullText[Floor(h.fullText, if w.start < |h.fullText| then w.start else |h.fullText|)..])
  }

  function FinalizeView(cfg: Config, v: View, h: Hypothesis): View {
    if !h.hasResult then v.(tentative := [])
    else if cfg.policy == OnFinalize || v.committed == [] || v.committed <= h.fullText then
      v.(committed := h.fullText, tentative := [], start := |h.fullText|)
    else v.(tentative := [], start := |h.fullText|)
  }

  /** What holds while a stream is active. */
  predicate Active(cfg: Config, v: View) {
    && v.start == |v.committed|
    && (cfg.policy == OnFinalize ==> v.committed == [])
    && |v.history| <= EffectiveN(cfg)
  }

  // One call.

  /** A feed keeps the invariant and only appends; what it appends is text of the hypothesis. */
  lemma FeedAppends(cfg: Config, v: View, h: Hypothesis)
    requires Active(cfg, v)
    ensures var w := FeedView(cfg, v, h);
      && Active(cfg, w)
      && v.committed <= w.committed
      && (w.committed != v.committed ==>
            h.hasResult && w.committed <= h.fullText && AtBoundary(h.fullText, |w.committed|))
  {
    if h.hasResult {
      var history := NextHistory(cfg, v.history, h);
      var candidate := Candidate(cfg, history, h);
      AppendedGrows(v.(history := history), h.fullText, candidate);
    }
  }

  /** Appending needs an agreeing committed text that ends at a boundary, and then reaches the candidate's boundary. */
  lemma AppendedGrows(v: View, raw: seq<byte>, candidate: nat)
    requires v.start == |v.committed|
    ensures var w := Appended(v, raw, candidate);
      if v.committed <= raw && AtBoundary(raw, |v.committed|) && Floor(raw, candidate) > |v.committed|
      then w == v.(committed := raw[..Floor(raw, candidate)], start := Floor(raw, candidate))
      else w == v
  {
    FloorCapped(raw, candidate);
    FloorCapped(raw, v.start);
    hide Floor, AtBoundary;
    var from, to := |v.committed|, Floor(raw, candidate);
    if v.committed <= raw {
      assert raw[..from] == v.committed;
      assert to > from ==> raw[..from] + raw[from..to] == raw[..to];
    }
  }

  lemma FloorCapped(s: seq<byte>, pos: nat)
    ensures Floor(s, if pos < |s| then pos else |s|) == Floor(s, pos)
    ensures Floor(s, pos) == pos <==> pos <= |s| && AtBoundary(s, pos)
  {
  }

  /** Exactly when the display text, committed then tentative, is the hypothesis. */
  lemma FeedSplits(cfg: Config, v: View, h: Hypothesis)
    requires Active(cfg, v) && h.hasResult
    ensures var w := FeedView(cfg, v, h);
      w.committed + w.tentative == h.fullText <==>
      (w.committed <= h.fullText && AtBoundary(h.fullText, |w.committed|))
  {
    FeedAppends(cfg, v, h);
    var w := FeedView(cfg, v, h);
    FloorCapped(h.fullText, w.start);
    if w.committed <= h.fullText {
      assert h.fullText[..|w.committed|] == w.committed;
    }
  }

  // Well-formed text.

  /** Codepoints that UTF-8 may encode: no surrogates (RFC 3629, section 3). */
  predicate AllScalar(cs: seq<nat>) {
    forall i :: 0 <= i < |cs| ==> cs[i] <= MAX_CPT && !(0xD800 <= cs[i] <= 0xDFFF)
  }

  ghost predicate WellFormed(text: seq<byte>) {
    exists cs :: IsScalarText(text, cs)
  }

  ghost predicate IsScalarText(text: seq<byte>, cs: seq<nat>) {
    AllScalar(cs) && AllValid(cs) && text == EncodeAll(cs)
  }

  lemma NothingWellFormed()
    ensures WellFormed([])
  {
    assert IsScalarText([], []);
  }

  /** Cutting well-formed text at a boundary leaves well-formed text. */
  lemma CutWellFormed(text: seq<byte>, p: nat)
    requires WellFormed(text) && p <= |text| && AtBoundary(text, p)
    ensures WellFormed(text[..p])
  {
    hide EncodeAll;
    var cs :| IsScalarText(text, cs);
    if p == 0 {
      NothingWellFormed();
      assert text[..0] == [];
    } else {
      var k := SplitAtBoundary(cs, p);
      assert IsScalarText(text[..p], cs[..k]);
    }
  }

  lemma EncodeAllFirst(cs: seq<nat>)
    requires AllValid(cs) && cs != []
    ensures EncodeAll(cs) == Encode(cs[0]) + EncodeAll(cs[1..])
  {
    hide Encode, EncodeAll;
    assert cs == [cs[0]] + cs[1..];
    EncodeAllOne(cs[0]);
    EncodeAllConcat([cs[0]], cs[1..]);
  }

  /** Encoded text starts with a leading byte that announces the length of a whole sequence. */
  lemma LeadingByte(text: seq<byte>, cs: seq<nat>)
    requires IsScalarText(text, cs) && text != []
    ensures !IsContinuation(text[0]) && LenUtf8(text[0]) <= |text|
    ensures forall i :: 1 <= i < LenUtf8(text[0]) ==> IsContinuation(text[i])
  {
    assert cs != [];
    EncodeAllFirst(cs);
  }

  lemma SuffixFromBoundary(text: seq<byte>, q: nat)
    requires WellFormed(text) && q < |text| && !IsContinuation(text[q])
    ensures LenUtf8(text[q]) <= |text| - q
    ensures forall i :: q < i < q + LenUtf8(text[q]) ==> IsContinuation(text[i])
    ensures q + LenUtf8(text[q]) == |text| || !IsContinuation(text[q + LenUtf8(text[q])])
  {
    hide Encode, EncodeAll, LenUtf8;
    var cs :| IsScalarText(text, cs);
    var k := SplitAtBoundary(cs, q);
    var rest := text[q..];
    var ds := cs[k..];
    assert IsScalarText(rest, ds);
    LeadingByte(rest, ds);
    assert rest[0] == text[q];
    assert forall i :: 0 <= i < |rest| ==> rest[i] == text[q + i];
    assert forall i :: q < i < q + LenUtf8(text[q]) ==> text[i] == rest[i - q];
    AfterLeading(rest, ds);
  }

  /** A whole sequence is followed by another leading byte or the end. */
  lemma AfterLeading(text: seq<byte>, cs: seq<nat>)
    requires IsScalarText(text, cs) && text != [] && LenUtf8(text[0]) <= |text|
    ensures LenUtf8(text[0]) == |text| || !IsContinuation(text[LenUtf8(text[0])])
  {
    hide EncodeAll;
    EncodeAllNone();
    assert cs != [];
    EncodeAllFirst(cs);
    var rest := EncodeAll(cs[1..]);
    assert |Encode(cs[0])| == LenUtf8(text[0]);
    if rest != [] {
      assert IsScalarText(rest, cs[1..]);
      LeadingByte(rest, cs[1..]);
      assert text[LenUtf8(text[0])] == rest[0];
    }
  }

  /** Where one well-formed text is a prefix of another, it ends at a boundary. */
  lemma PrefixAligned(a: seq<byte>, b: seq<byte>)
    requires WellFormed(a) && WellFormed(b) && a <= b
    ensures AtBoundary(b, |a|)
  {
    hide WellFormed, LenUtf8;
    if 0 < |a| < |b| {
      LeadingFirst(a);
      var q := Floor(b, |a| - 1);
      assert b[0] == a[0];
      assert !IsContinuation(b[q]);
      assert a[q] == b[q];
      SuffixFromBoundary(a, q);
      SuffixFromBoundary(b, q);
      var next := q + LenUtf8(a[q]);
      FloorReaches(b, |a| - 1, if next < |a| then next else 0);
    }
  }

  lemma LeadingFirst(text: seq<byte>)
    requires WellFormed(text) && text != []
    ensures !IsContinuation(text[0])
  {
    var cs :| IsScalarText(text, cs);
    LeadingByte(text, cs);
  }

  /** A feed with well-formed hypotheses keeps the committed text well-formed. */
  lemma FeedWellFormed(cfg: Config, v: View, h: Hypothesis)
    requires Active(cfg, v) && WellFormed(v.committed) && (h.hasResult ==> WellFormed(h.fullText))
    ensures WellFormed(FeedView(cfg, v, h).committed)
  {
    hide WellFormed, FeedView, Active;
    FeedAppends(cfg, v, h);
    var w := FeedView(cfg, v, h);
    if w.committed != v.committed {
      CutWellFormed(h.fullText, |w.committed|);
      assert h.fullText[..|w.committed|] == w.committed;
    }
  }

  /** With well-formed text, committed and tentative show the hypothesis or the hypothesis left the committed text. */
  lemma FeedShows(cfg: Config, v: View, h: Hypothesis)
    requires Active(cfg, v) && WellFormed(v.committed) && h.hasResult && WellFormed(h.fullText)
    ensures var w := FeedView(cfg, v, h); w.committed + w.tentative == h.fullText <==> w.committed <= h.fullText
  {
    hide WellFormed, FeedView, Active;
    FeedWellFormed(cfg, v, h);
    FeedSplits(cfg, v, h);
    var w := FeedView(cfg, v, h);
    if w.committed <= h.fullText {
      PrefixAligned(w.committed, h.fullText);
    }
  }

  // Agreement evidence.

  /** Under the generic provider, text is committed only when each of the last n hypotheses starts with it. */
  lemma FeedEvidence(cfg: Config, v: View, h: Hypothesis)
    requires Active(cfg, v) && Compares(cfg)
    ensures var w := FeedView(cfg, v, h);
      w.committed != v.committed ==>
        |w.history| == EffectiveN(cfg) && forall i :: 0 <= i < |w.history| ==> w.committed <= w.history[i]
  {
    var w := FeedView(cfg, v, h);
    if w.committed != v.committed {
      var history := NextHistory(cfg, v.history, h);
      var last := |history| - 1;
      assert history[last] == h.fullText;
      var n := Agreed(history[0], history);
      AppendedGrows(v.(history := history), h.fullText, Candidate(cfg, history, h));
      assert w.committed <= h.fullText && |w.committed| <= n;
      forall i | 0 <= i < |history|
        ensures w.committed <= history[i]
      {
        hide Agreed;
        AgreedIsShared(history[0], history, i);
        AgreedIsShared(history[0], history, last);
        PrefixTravels(w.committed, h.fullText, history[0], history[i], n);
      }
    }
  }

  lemma PrefixTravels(p: seq<byte>, a: seq<byte>, front: seq<byte>, b: seq<byte>, n: nat)
    requires p <= a && |p| <= n && SharesPrefix(front, a, n) && SharesPrefix(front, b, n)
    ensures p <= b
  {
    assert a[..n] == b[..n];
    assert p == a[..n][..|p|] == b[..n][..|p|];
  }

  /** A well-formed text that starts every recent hypothesis is within the candidate. */
  lemma CandidateReaches(cfg: Config, history: seq<seq<byte>>, h: Hypothesis, p: seq<byte>)
    requires Compares(cfg) && h.hasResult && |history| == EffectiveN(cfg) && history[|history| - 1] == h.fullText
    requires WellFormed(p) && forall i :: 0 <= i < |history| ==> WellFormed(history[i]) && p <= history[i]
    ensures |p| <= Floor(h.fullText, Candidate(cfg, history, h))
  {
    hide WellFormed, AtBoundary, Floor, Agreed;
    PrefixAligned(p, history[0]);
    PrefixAligned(p, history[|history| - 1]);
    AgreedIsLongest(history[0], history, p);
    FloorReaches(h.fullText, Agreed(history[0], history), |p|);
    FloorReaches(h.fullText, Candidate(cfg, history, h), |p|);
  }

  /** And nothing less: with well-formed texts, whatever the last n hypotheses share is committed. */
  lemma FeedCommitsAgreement(cfg: Config, v: View, h: Hypothesis, p: seq<byte>)
    requires Active(cfg, v) && Compares(cfg) && h.hasResult && v.committed <= h.fullText
    requires WellFormed(v.committed) && WellFormed(p)
    requires var recent := NextHistory(cfg, v.history, h);
      |recent| == EffectiveN(cfg) && forall i :: 0 <= i < |recent| ==> WellFormed(recent[i]) && p <= recent[i]
    ensures p <= FeedView(cfg, v, h).committed
  {
    hide WellFormed, AtBoundary, Floor, Appended, Candidate;
    var history := NextHistory(cfg, v.history, h);
    var last := |history| - 1;
    assert history[last] == h.fullText;
    CandidateReaches(cfg, history, h, p);
    PrefixAligned(v.committed, history[last]);
    AppendedGrows(v.(history := history), h.fullText, Candidate(cfg, history, h));
    var w := FeedView(cfg, v, h);
    assert |p| <= |w.committed| && w.committed <= h.fullText && p <= h.fullText;
  }

  /** Under a family boundary the text of the committed tokens is committed, if the hypothesis starts with it. */
  lemma FeedCommitsTokens(cfg: Config, v: View, h: Hypothesis)
    requires Active(cfg, v) && cfg.provider == FamilyBoundary && cfg.policy != OnFinalize
    requires h.hasResult && v.committed <= h.fullText && h.committedTokens > 0 && h.tokens != []
    requires WellFormed(v.committed) && WellFormed(h.fullText) && WellFormed(Said(h)) && Said(h) <= h.fullText
    ensures var w := FeedView(cfg, v, h);
      w.committed == if |Said(h)| > |v.committed| then Said(h) else v.committed
  {
    hide WellFormed, AtBoundary, Floor, Appended, TokenPrefix, Said;
    FamilyCandidateIs(h);
    PrefixAligned(v.committed, h.fullText);
    PrefixAligned(Said(h), h.fullText);
    FloorCapped(h.fullText, |Said(h)|);
    AppendedGrows(v, h.fullText, |Said(h)|);
    assert h.fullText[..|Said(h)|] == Said(h);
  }

  /** The same when the full text leaves out the space the token text starts with. */
  lemma FeedCommitsTrimmedTokens(cfg: Config, v: View, h: Hypothesis)
    requires Active(cfg, v) && cfg.provider == FamilyBoundary && cfg.policy != OnFinalize
    requires h.hasResult && v.committed <= h.fullText && h.committedTokens > 0 && h.tokens != []
    requires DropsSpace(Said(h), h.fullText) && Said(h)[1..] <= h.fullText
    requires WellFormed(v.committed) && WellFormed(h.fullText) && WellFormed(Said(h)[1..])
    ensures var w, kept := FeedView(cfg, v, h), Said(h)[1..];
      w.committed == if |kept| > |v.committed| then kept else v.committed
  {
    hide WellFormed, AtBoundary, Floor, Appended, TokenPrefix, Said;
    var kept := Said(h)[1..];
    TokenPrefixKeeps(h);
    assert !(Said(h) <= h.fullText);
    PrefixAligned(v.committed, h.fullText);
    PrefixAligned(kept, h.fullText);
    FloorCapped(h.fullText, |kept|);
    AppendedGrows(v, h.fullText, |kept|);
    assert h.fullText[..|kept|] == kept;
  }

  /** And everything is, once all words or all segments are committed. */
  lemma FeedCommitsAll(cfg: Config, v: View, h: Hypothesis)
    requires Active(cfg, v) && cfg.provider == FamilyBoundary && cfg.policy != OnFinalize
    requires h.hasResult && v.committed <= h.fullText && h.committedTokens <= 0
    requires WellFormed(v.committed) && WellFormed(h.fullText)
    requires (h.committedWords > 0 && h.committedWords >= h.words)
             || (h.committedSegments > 0 && h.committedSegments >= h.segments)
    ensures FeedView(cfg, v, h).committed == h.fullText
  {
    hide WellFormed, AtBoundary, Floor, Appended, TokenPrefix, Said;
    FamilyCandidateIs(h);
    PrefixAligned(v.committed, h.fullText);
    FloorWhole(h.fullText);
    AppendedGrows(v, h.fullText, |h.fullText|);
    assert h.fullText[..|h.fullText|] == h.fullText;
  }

  /** With an agreement of one, every hypothesis is committed at once. */
  lemma FeedCommitsAtOnce(cfg: Config, v: View, h: Hypothesis)
    requires Active(cfg, v) && cfg.provider == GenericAgreement && cfg.policy != OnFinalize && cfg.agreementN == 1
    requires h.hasResult && v.committed <= h.fullText && WellFormed(v.committed) && WellFormed(h.fullText)
    ensures FeedView(cfg, v, h).committed == h.fullText
  {
    hide WellFormed, AtBoundary, Floor, Appended;
    PrefixAligned(v.committed, h.fullText);
    FloorWhole(h.fullText);
    AppendedGrows(v, h.fullText, |h.fullText|);
    assert h.fullText[..|h.fullText|] == h.fullText;
  }

  lemma FloorWhole(s: seq<byte>)
    ensures Floor(s, |s|) == |s|
  {
  }

  // Finalize.

  /** Finalizing only appends; with a result the committed text is the final text, or stays where the text left it. */
  lemma FinalizeSettles(cfg: Config, v: View, h: Hypothesis)
    requires Active(cfg, v)
    ensures var w := FinalizeView(cfg, v, h);
      && v.committed <= w.committed
      && w.tentative == []
      && w.start == (if h.hasResult then |h.fullText| else v.start) && w.history == v.history
      && (h.hasResult && v.committed <= h.fullText ==> w.committed == h.fullText)
      && (!h.hasResult || !(v.committed <= h.fullText) ==> w.committed == v.committed)
  {
  }

  // Whole streams.

  /** The view after a sequence of successful feeds. */
  function Feeds(cfg: Config, hyps: seq<Hypothesis>): View {
    if hyps == [] then FRESH else FeedView(cfg, Feeds(cfg, hyps[..|hyps| - 1]), hyps[|hyps| - 1])
  }

  lemma FeedsNone(cfg: Config)
    ensures Feeds(cfg, []) == FRESH
  {
  }

  lemma FeedsNext(cfg: Config, hyps: seq<Hypothesis>, h: Hypothesis)
    ensures Feeds(cfg, hyps + [h]) == FeedView(cfg, Feeds(cfg, hyps), h)
  {
    assert (hyps + [h])[..|hyps + [h]| - 1] == hyps;
  }

  lemma {:induction false} FeedsActive(cfg: Config, hyps: seq<Hypothesis>)
    ensures Active(cfg, Feeds(cfg, hyps))
  {
    if hyps != [] {
      FeedsActive(cfg, hyps[..|hyps| - 1]);
      FeedAppends(cfg, Feeds(cfg, hyps[..|hyps| - 1]), hyps[|hyps| - 1]);
    }
  }

  /** Over any stream, what was committed earlier is a prefix of what is committed later, and at the end. */
  lemma {:induction false} StreamAppendOnly(cfg: Config, hyps: seq<Hypothesis>, i: nat, last: Hypothesis)
    requires i <= |hyps|
    ensures Feeds(cfg, hyps[..i]).committed <= Feeds(cfg, hyps).committed
    ensures Feeds(cfg, hyps[..i]).committed <= FinalizeView(cfg, Feeds(cfg, hyps), last).committed
  {
    hide FeedView, FinalizeView, Active;
    FeedsActive(cfg, hyps);
    FinalizeSettles(cfg, Feeds(cfg, hyps), last);
    if i == |hyps| {
      assert hyps[..i] == hyps;
    } else {
      var before := hyps[..|hyps| - 1];
      StreamAppendOnly(cfg, before, i, last);
      assert before[..i] == hyps[..i];
      FeedsActive(cfg, before);
      FeedAppends(cfg, Feeds(cfg, before), hyps[|hyps| - 1]);
    }
  }

  /** Over any stream of well-formed hypotheses the committed text is well-formed. */
  lemma {:induction false} StreamWellFormed(cfg: Config, hyps: seq<Hypothesis>)
    requires forall i :: 0 <= i < |hyps| && hyps[i].hasResult ==> WellFormed(hyps[i].fullText)
    ensures WellFormed(Feeds(cfg, hyps).committed)
  {
    hide WellFormed, FeedView, Active;
    if hyps == [] {
      NothingWellFormed();
    } else {
      var before := hyps[..|hyps| - 1];
      StreamWellFormed(cfg, before);
      FeedsActive(cfg, before);
      FeedWellFormed(cfg, Feeds(cfg, before), hyps[|hyps| - 1]);
    }
  }

  /** The full texts of the hypotheses that carried a result. */
  function Texts(hyps: seq<Hypothesis>): seq<seq<byte>> {
    if hyps == [] then [] else
      var before := Texts(hyps[..|hyps| - 1]);
      if hyps[|hyps| - 1].hasResult then before + [hyps[|hyps| - 1].fullText] else before
  }

  lemma LastNNext(texts: seq<seq<byte>>, text: seq<byte>, n: nat)
    requires n >= 1
    ensures LastN(LastN(texts, n) + [text], n) == LastN(texts + [text], n)
  {
  }

  /** The history is always the most recent n texts of the stream. */
  lemma {:induction false} HistoryIsRecent(cfg: Config, hyps: seq<Hypothesis>)
    requires Compares(cfg)
    ensures Feeds(cfg, hyps).history == LastN(Texts(hyps), EffectiveN(cfg))
  {
    hide LastN;
    LastNNone(EffectiveN(cfg));
    if hyps != [] {
      var before := hyps[..|hyps| - 1];
      HistoryIsRecent(cfg, before);
      FeedsActive(cfg, before);
      var v, h := Feeds(cfg, before), hyps[|hyps| - 1];
      var history := NextHistory(cfg, v.history, h);
      AppendedGrows(v.(history := history), h.fullText, Candidate(cfg, history, h));
      LastNNext(Texts(before), h.fullText, EffectiveN(cfg));
    }
  }

  lemma LastNNone(n: nat)
    ensures LastN([], n) == []
  {
  }

  /** Over any stream, a feed that grows the committed text has n agreeing hypotheses behind all of it. */
  lemma StreamEvidence(cfg: Config, hyps: seq<Hypothesis>, h: Hypothesis)
    requires Compares(cfg) && Feeds(cfg, hyps + [h]).committed != Feeds(cfg, hyps).committed
    ensures var recent := LastN(Texts(hyps + [h]), EffectiveN(cfg));
      |recent| == EffectiveN(cfg) && forall i :: 0 <= i < |recent| ==> Feeds(cfg, hyps + [h]).committed <= recent[i]
  {
    hide FeedView, Active, LastN;
    assert (hyps + [h])[..|hyps + [h]| - 1] == hyps;
    FeedsActive(cfg, hyps);
    FeedEvidence(cfg, Feeds(cfg, hyps), h);
    HistoryIsRecent(cfg, hyps + [h]);
  }
}
