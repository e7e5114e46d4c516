/** Format selection in `getVideoInfo` (src/downloader.js:50-124): the candidate list, the
    three `reduce` folds that pick one candidate for the quality preferences `highest`
    (the manual fallback), `lowest` and a numeric target, the two errors the selection
    throws, and the catch block that rewrites error messages. */
module FormatSelection {
  import opened Wrappers
  import opened JsText

  /** One entry of `info.formats`, reduced to the fields selection reads. A missing
      `height` (audio-only formats have none) is `None`. */
  datatype Format = Format(hasVideo: bool, hasAudio: bool, container: string, height: Option<int>)

  // ---------------------------------------------------------------------------------
  // Candidates (src/downloader.js:55-64)
  // ---------------------------------------------------------------------------------

  /** `Array.prototype.filter` on the format list: the entries that `keep` accepts, in
      their order. */
  function Filter(s: seq<Format>, keep: Format -> bool): (r: seq<Format>)
    ensures |r| <= |s|
    ensures forall x :: x in r <==> x in s && keep(x)
  {
    if s == [] then []
    else (if keep(s[0]) then [s[0]] else []) + Filter(s[1..], keep)
  }

  /** Filtering distributes over concatenation, which with the singleton cases pins it
      down as the order-preserving sublist of accepted entries. */
  lemma {:induction false} FilterAppend(a: seq<Format>, b: seq<Format>, keep: Format -> bool)
    ensures Filter(a + b, keep) == Filter(a, keep) + Filter(b, keep)
  {
    if a == [] {
      assert a + b == b;
    } else {
      assert (a + b)[1..] == a[1..] + b;
      FilterAppend(a[1..], b, keep);
    }
  }

  /** Two tests that agree on every entry filter alike. */
  lemma {:induction false} FilterAgrees(s: seq<Format>, p: Format -> bool, q: Format -> bool)
    requires forall x :: x in s ==> p(x) == q(x)
    ensures Filter(s, p) == Filter(s, q)
  {
    if s != [] {
      assert forall x :: x in s[1..] ==> x in s;
      FilterAgrees(s[1..], p, q);
    }
  }

  /** A test every entry passes keeps the whole list. */
  lemma {:induction false} FilterKeepsAll(s: seq<Format>, keep: Format -> bool)
    requires forall x :: x in s ==> keep(x)
    ensures Filter(s, keep) == s
  {
    if s != [] {
      assert forall x :: x in s[1..] ==> x in s;
      FilterKeepsAll(s[1..], keep);
      assert s == [s[0]] + s[1..];
    }
  }

  /** The preferred kind: an mp4 that carries both audio and video (line 56). */
  predicate IsMp4WithAudio(f: Format)
  {
    f.hasVideo && f.hasAudio && f.container == "mp4"
  }

  /** The fallback test exactly as line 61 writes it. */
  predicate IsVideoFormat(f: Format)
  {
    (f.hasVideo && f.hasAudio) || f.hasVideo
  }

  /** `formats` of line 64: the mp4 audio+video entries if there are any, otherwise every
      entry that carries video. */
  function Candidates(formats: seq<Format>): (r: seq<Format>)
    ensures forall f :: f in r ==> f in formats && f.hasVideo
    ensures r == [] <==> forall f :: f in formats ==> !f.hasVideo
  {
    var videoFormats := Filter(formats, IsMp4WithAudio);
    var allFormats := Filter(formats, IsVideoFormat);
    assert allFormats != [] ==> allFormats[0] in allFormats;
    assert videoFormats != [] ==> videoFormats[0] in videoFormats;
    if |videoFormats| > 0 then videoFormats else allFormats
  }

  /** The candidate list is the order-preserving sublist of mp4 audio+video entries when
      one exists, and otherwise the order-preserving sublist of entries with video: the
      test `(hasVideo && hasAudio) || hasVideo` is just `hasVideo`. */
  lemma CandidatesSpec(formats: seq<Format>)
    ensures (exists f :: f in formats && IsMp4WithAudio(f)) ==>
      Candidates(formats) == Filter(formats, IsMp4WithAudio)
    ensures (forall f :: f in formats ==> !IsMp4WithAudio(f)) ==>
      Candidates(formats) == Filter(formats, (f: Format) => f.hasVideo)
  {
    if forall f :: f in formats ==> !IsMp4WithAudio(f) {
      var preferred := Filter(formats, IsMp4WithAudio);
      if |preferred| > 0 {
        assert preferred[0] in preferred;
      }
      FilterAgrees(formats, IsVideoFormat, (f: Format) => f.hasVideo);
    } else {
      var f :| f in formats && IsMp4WithAudio(f);
      assert f in Filter(formats, IsMp4WithAudio);
    }
  }

  // ---------------------------------------------------------------------------------
  // The reduce folds (src/downloader.js:78-108)
  // ---------------------------------------------------------------------------------

  /** A JavaScript number as the folds compare it: an integer or `Infinity`. */
  datatype Rank = Finite(n: int) | Infinity

  /** JavaScript `<` on such numbers (`Infinity < Infinity` is false). */
  predicate Below(a: Rank, b: Rank)
  {
    match a
    case Infinity => false
    case Finite(x) => b.Infinity? || x < b.n
  }

  /** `s.reduce((kept, current) => rank(current) < rank(kept) ? current : kept)`: the
      fold starts from the first entry and a later entry replaces the kept one only when
      it ranks strictly lower. */
  function ReduceToMinimum(s: seq<Format>, rank: Format -> Rank): Format
    requires |s| > 0
  {
    FoldFrom(s[0], s[1..], rank)
  }

  function FoldFrom(kept: Format, rest: seq<Format>, rank: Format -> Rank): Format
    decreases rest
  {
    if rest == [] then kept
    else FoldFrom(if Below(rank(rest[0]), rank(kept)) then rest[0] else kept, rest[1..], rank)
  }

  /** Among the first `n` entries of `s`, entry `i` has the least rank and every entry
      before it ranks strictly higher. */
  predicate LeadsPrefix(s: seq<Format>, n: int, rank: Format -> Rank, i: int)
  {
    && 0 <= i < n <= |s|
    && (forall j :: 0 <= j < n ==> !Below(rank(s[j]), rank(s[i])))
    && (forall j :: 0 <= j < i ==> Below(rank(s[i]), rank(s[j])))
  }

  /** Entry `i` is the earliest entry of least rank: the reference the folds are proved
      against. */
  predicate IsFirstMinimum(s: seq<Format>, rank: Format -> Rank, i: int)
  {
    LeadsPrefix(s, |s|, rank, i)
  }

  /** At most one position is the earliest minimum. */
  lemma FirstMinimumUnique(s: seq<Format>, rank: Format -> Rank, i: int, k: int)
    requires IsFirstMinimum(s, rank, i) && IsFirstMinimum(s, rank, k)
    ensures i == k
  {
    assert !Below(rank(s[k]), rank(s[i])) && !Below(rank(s[i]), rank(s[k]));
  }

  /** A strictly smaller next entry takes the lead of the longer prefix. */
  lemma LeadPassesTo(s: seq<Format>, rank: Format -> Rank, k: int, i: int)
    requires LeadsPrefix(s, k, rank, i) && k < |s| && Below(rank(s[k]), rank(s[i]))
    ensures LeadsPrefix(s, k + 1, rank, k)
  {
    forall j | 0 <= j < k
      ensures Below(rank(s[k]), rank(s[j]))
    {
      assert !Below(rank(s[j]), rank(s[i]));
    }
  }

  /** A next entry that is not strictly smaller leaves the lead where it is. */
  lemma LeadStays(s: seq<Format>, rank: Format -> Rank, k: int, i: int)
    requires LeadsPrefix(s, k, rank, i) && k < |s| && !Below(rank(s[k]), rank(s[i]))
    ensures LeadsPrefix(s, k + 1, rank, i)
  {
  }

  /** A fold that holds the earliest least entry of the first `k` entries ends on the
      earliest least entry of the whole list, whose position it returns. */
  lemma {:induction false} FoldFromLeads(s: seq<Format>, rank: Format -> Rank, k: int, i: int) returns (m: int)
    requires LeadsPrefix(s, k, rank, i)
    ensures IsFirstMinimum(s, rank, m) && FoldFrom(s[i], s[k..], rank) == s[m]
    decreases |s| - k
  {
    if k == |s| {
      assert s[k..] == [];
      m := i;
    } else {
      var rest := s[k..];
      assert rest[0] == s[k] && rest[1..] == s[k + 1..];
      if Below(rank(s[k]), rank(s[i])) {
        assert FoldFrom(s[i], rest, rank) == FoldFrom(s[k], s[k + 1..], rank);
        LeadPassesTo(s, rank, k, i);
        m := FoldFromLeads(s, rank, k + 1, k);
      } else {
        assert FoldFrom(s[i], rest, rank) == FoldFrom(s[i], s[k + 1..], rank);
        LeadStays(s, rank, k, i);
        m := FoldFromLeads(s, rank, k + 1, i);
      }
    }
  }

  /** The fold returns the earliest entry of least rank. */
  lemma ReduceToMinimumSpec(s: seq<Format>, rank: Format -> Rank)
    requires |s| > 0
    ensures exists m :: IsFirstMinimum(s, rank, m) && ReduceToMinimum(s, rank) == s[m]
  {
    assert LeadsPrefix(s, 1, rank, 0);
    var m := FoldFromLeads(s, rank, 1, 0);
  }

  /** `parseInt(f.height) || 0`: a missing height, like a height of 0, counts as 0. */
  function HeightOrZero(f: Format): int
  {
    match f.height
    case Some(h) => h
    case None => 0
  }

  /** `parseInt(f.height) || Infinity`: a missing or zero height counts as `Infinity`. */
  function HeightOrInfinity(f: Format): Rank
  {
    match f.height
    case Some(h) => if h == 0 then Infinity else Finite(h)
    case None => Infinity
  }

  function Abs(x: int): nat
  {
    if x < 0 then -x else x
  }

  /** `currentHeight > bestHeight` of line 81 is `-currentHeight < -bestHeight`. */
  function Tallness(f: Format): Rank
  {
    Finite(-HeightOrZero(f))
  }

  /** `Math.abs(height - requested)` of lines 104-105. */
  function Distance(f: Format, requested: int): Rank
  {
    Finite(Abs(HeightOrZero(f) - requested))
  }

  /** The manual `highest` fallback (lines 78-82). */
  function HighestFallback(candidates: seq<Format>): Format
    requires |candidates| > 0
  {
    ReduceToMinimum(candidates, Tallness)
  }

  /** The `lowest` fold (lines 86-90). */
  function Lowest(candidates: seq<Format>): Format
    requires |candidates| > 0
  {
    ReduceToMinimum(candidates, HeightOrInfinity)
  }

  /** The fold toward a requested height (lines 99-108). */
  function Closest(candidates: seq<Format>, requested: int): Format
    requires |candidates| > 0
  {
    ReduceToMinimum(candidates, (f: Format) => Distance(f, requested))
  }

  /** `highest` fallback: the earliest candidate whose height (0 when missing) is at least
      every candidate's. */
  lemma HighestFallbackSpec(candidates: seq<Format>)
    requires |candidates| > 0
    ensures exists i ::
      && 0 <= i < |candidates| && HighestFallback(candidates) == candidates[i]
      && (forall j :: 0 <= j < |candidates| ==> HeightOrZero(candidates[j]) <= HeightOrZero(candidates[i]))
      && (forall j :: 0 <= j < i ==> HeightOrZero(candidates[j]) < HeightOrZero(candidates[i]))
  {
    ReduceToMinimumSpec(candidates, Tallness);
    var m :| IsFirstMinimum(candidates, Tallness, m) && HighestFallback(candidates) == candidates[m];
    forall j | 0 <= j < |candidates|
      ensures HeightOrZero(candidates[j]) <= HeightOrZero(candidates[m])
    {
      assert !Below(Tallness(candidates[j]), Tallness(candidates[m]));
    }
    forall j | 0 <= j < m
      ensures HeightOrZero(candidates[j]) < HeightOrZero(candidates[m])
    {
      assert Below(Tallness(candidates[m]), Tallness(candidates[j]));
    }
  }

  /** `lowest`: the earliest candidate whose height (`Infinity` when missing or 0) is at
      most every candidate's. */
  lemma LowestSpec(candidates: seq<Format>)
    requires |candidates| > 0
    ensures exists i ::
      && 0 <= i < |candidates| && Lowest(candidates) == candidates[i]
      && (forall j :: 0 <= j < |candidates| ==>
            !Below(HeightOrInfinity(candidates[j]), HeightOrInfinity(candidates[i])))
      && (forall j :: 0 <= j < i ==>
            Below(HeightOrInfinity(candidates[i]), HeightOrInfinity(candidates[j])))
  {
    ReduceToMinimumSpec(candidates, HeightOrInfinity);
  }

  /** `lowest` never passes over a candidate with a known non-zero height for one without. */
  lemma LowestPrefersKnownHeight(candidates: seq<Format>, k: int)
    requires 0 <= k < |candidates| && HeightOrInfinity(candidates[k]).Finite?
    ensures HeightOrInfinity(Lowest(candidates)).Finite?
  {
    ReduceToMinimumSpec(candidates, HeightOrInfinity);
    var m :| IsFirstMinimum(candidates, HeightOrInfinity, m) && Lowest(candidates) == candidates[m];
    assert !Below(HeightOrInfinity(candidates[k]), HeightOrInfinity(candidates[m]));
  }

  /** `lowest` keeps the first candidate when no candidate has a known non-zero height. */
  lemma LowestWithoutHeights(candidates: seq<Format>)
    requires |candidates| > 0
    requires forall j :: 0 <= j < |candidates| ==> HeightOrInfinity(candidates[j]) == Infinity
    ensures Lowest(candidates) == candidates[0]
  {
    ReduceToMinimumSpec(candidates, HeightOrInfinity);
    var m :| IsFirstMinimum(candidates, HeightOrInfinity, m) && Lowest(candidates) == candidates[m];
    assert !Below(HeightOrInfinity(candidates[m]), HeightOrInfinity(candidates[0]));
  }

  /** Numeric target: the earliest candidate whose height (0 when missing) is nearest to
      the requested one. */
  lemma ClosestSpec(candidates: seq<Format>, requested: int)
    requires |candidates| > 0
    ensures exists i ::
      && 0 <= i < |candidates| && Closest(candidates, requested) == candidates[i]
      && (forall j :: 0 <= j < |candidates| ==>
            Abs(HeightOrZero(candidates[i]) - requested) <= Abs(HeightOrZero(candidates[j]) - requested))
      && (forall j :: 0 <= j < i ==>
            Abs(HeightOrZero(candidates[i]) - requested) < Abs(HeightOrZero(candidates[j]) - requested))
  {
    var rank := (f: Format) => Distance(f, requested);
    ReduceToMinimumSpec(candidates, rank);
    var m :| IsFirstMinimum(candidates, rank, m) && Closest(candidates, requested) == candidates[m];
    forall j | 0 <= j < |candidates|
      ensures Abs(HeightOrZero(candidates[m]) - requested) <= Abs(HeightOrZero(candidates[j]) - requested)
    {
      assert !Below(rank(candidates[j]), rank(candidates[m]));
    }
    forall j | 0 <= j < m
      ensures Abs(HeightOrZero(candidates[m]) - requested) < Abs(HeightOrZero(candidates[j]) - requested)
    {
      assert Below(rank(candidates[m]), rank(candidates[j]));
    }
  }

  // ---------------------------------------------------------------------------------
  // The selection as a whole (src/downloader.js:55-109)
  // ---------------------------------------------------------------------------------

  const NoFormatsMessage := "No video formats available for this video"

  /** The message of line 95; the quality text the caller gave is quoted in it. */
  function InvalidQualityMessage(quality: string): string
  {
    "Invalid quality option: " + quality + ". Use \"highest\", \"lowest\", "
      + "or a number like \"720p\""
  }

  /** What the `try` block of `getVideoInfo` yields once `ytdl.getInfo` has returned
      `formats`: a format, or the message of the error it throws. `library` is what
      `ytdl.chooseFormat(info.formats, { quality: 'highest' })` returned, or `None` when
      that call threw and the manual fallback ran. */
  function SelectFormat(formats: seq<Format>, quality: string, library: Option<Format>): Result<Format, string>
  {
    var candidates := Candidates(formats);
    if |candidates| == 0 then Failure(NoFormatsMessage)
    else if quality == "highest" then
      match library
      case Some(chosen) => Success(chosen)
      case None => Success(HighestFallback(candidates))
    else if quality == "lowest" then Success(Lowest(candidates))
    else
      match ParseInt(quality)
      case None => Failure(InvalidQualityMessage(quality))
      case Some(requested) => Success(Closest(candidates, requested))
  }

  /** Selection fails exactly when no entry carries video, or when the quality is neither
      `highest` nor `lowest` and `parseInt` finds no number in it; a list without video
      fails that way whatever the quality, since that test comes first. */
  lemma SelectFormatErrors(formats: seq<Format>, quality: string, library: Option<Format>)
    ensures (forall f :: f in formats ==> !f.hasVideo) ==>
      SelectFormat(formats, quality, library) == Failure(NoFormatsMessage)
    ensures (exists f :: f in formats && f.hasVideo) ==>
      (SelectFormat(formats, quality, library).Failure? <==>
         quality != "highest" && quality != "lowest" && ParseInt(quality).None?)
    ensures (exists f :: f in formats && f.hasVideo) && SelectFormat(formats, quality, library).Failure? ==>
      SelectFormat(formats, quality, library).error == InvalidQualityMessage(quality)
  {
  }

  /** Unless the library call answered, the selected format is one of the entries, carries
      video, and is an mp4 with audio whenever such an entry exists. */
  lemma SelectedFormatIsCandidate(formats: seq<Format>, quality: string, library: Option<Format>)
    requires quality != "highest" || library.None?
    requires SelectFormat(formats, quality, library).Success?
    ensures var f := SelectFormat(formats, quality, library).value;
      && f in formats && f.hasVideo
      && ((exists g :: g in formats && IsMp4WithAudio(g)) ==> IsMp4WithAudio(f))
  {
    var candidates := Candidates(formats);
    var f := SelectFormat(formats, quality, library).value;
    if quality == "highest" {
      HighestFallbackSpec(candidates);
    } else if quality == "lowest" {
      LowestSpec(candidates);
    } else {
      ClosestSpec(candidates, ParseInt(quality).value);
    }
    assert f in candidates;
    CandidatesSpec(formats);
  }

  /** A mixed mp4 rendition of the given height. */
  function Mp4(height: int): Format
  {
    Format(true, true, "mp4", Some(height))
  }

  lemma ParseInt720p()
    ensures ParseInt("720p") == Some(720)
  {
    assert ShowInt(720) == "720" by {
      assert ShowNat(7) == "7";
      assert ShowNat(72) == ShowNat(7) + "2";
      assert ShowNat(720) == ShowNat(72) + "0";
    }
    assert "720p" == ShowInt(720) + "p";
    ParseIntShowInt(720, "p");
  }

  lemma ClosestExample()
    ensures Closest([Mp4(360), Mp4(480), Mp4(720), Mp4(1080)], 720) == Mp4(720)
  {
    var formats := [Mp4(360), Mp4(480), Mp4(720), Mp4(1080)];
    var rank := (f: Format) => Distance(f, 720);
    ReduceToMinimumSpec(formats, rank);
    var m :| IsFirstMinimum(formats, rank, m) && Closest(formats, 720) == formats[m];
    assert IsFirstMinimum(formats, rank, 2);
    FirstMinimumUnique(formats, rank, m, 2);
  }

  /** Quality "lowest" selects by the `lowest` fold, whose meaning `LowestSpec` states. */
  lemma SelectsLowest(formats: seq<Format>, library: Option<Format>)
    requires Candidates(formats) != []
    ensures SelectFormat(formats, "lowest", library) == Success(Lowest(Candidates(formats)))
  {
  }

  /** Quality "highest" selects the library's answer, or by the manual fallback fold,
      whose meaning `HighestFallbackSpec` states, when the library throws. */
  lemma SelectsHighest(formats: seq<Format>, chosen: Format)
    requires Candidates(formats) != []
    ensures SelectFormat(formats, "highest", Some(chosen)) == Success(chosen)
    ensures SelectFormat(formats, "highest", None) == Success(HighestFallback(Candidates(formats)))
  {
  }

  lemma SelectsClosest(formats: seq<Format>, quality: string, requested: int)
    requires Candidates(formats) != []
    requires quality != "highest" && quality != "lowest" && ParseInt(quality) == Some(requested)
    ensures SelectFormat(formats, quality, None) == Success(Closest(Candidates(formats), requested))
  {
  }

  /** Heights 360, 480, 720 and 1080 with quality "720p" select the 720 entry. */
  lemma TargetExample()
    ensures SelectFormat([Mp4(360), Mp4(480), Mp4(720), Mp4(1080)], "720p", None) == Success(Mp4(720))
  {
    var formats := [Mp4(360), Mp4(480), Mp4(720), Mp4(1080)];
    FilterKeepsAll(formats, IsMp4WithAudio);
    assert Candidates(formats) == formats;
    ParseInt720p();
    ClosestExample();
    SelectsClosest(formats, "720p", 720);
  }

  // ---------------------------------------------------------------------------------
  // The catch block (src/downloader.js:112-123)
  // ---------------------------------------------------------------------------------

  const AgeRestrictedMessage := "This video is age-restricted" + " and cannot be downloaded"
  const PrivateMessage := "This video is private" + " and cannot be downloaded"
  const UnavailableMessage := "This video is unavailable"
  const ExtractionMessage := "Unable to extract video " + "information. YouTube may "
    + "have changed their API. " + "Try updating ytdl-core " + "or try again later."

  /** The message `getVideoInfo` rethrows for an error with this message: the first of
      the four tests that matches decides, and an error that matches none propagates
      unchanged. */
  function TranslateError(message: string): string
  {
    if Includes(message, "Sign in to confirm your age") then AgeRestrictedMessage
    else if Includes(message, "Private video") then PrivateMessage
    else if Includes(message, "Video unavailable") then UnavailableMessage
    else if Includes(message, "Could not extract functions")
      || Includes(message, "Unable to retrieve video metadata") then ExtractionMessage
    else message
  }

  /** The texts the catch block looks for. */
  predicate MentionsKnownFailure(message: string)
  {
    || Includes(message, "Sign in to confirm your age")
    || Includes(message, "Private video")
    || Includes(message, "Video unavailable")
    || Includes(message, "Could not extract functions")
    || Includes(message, "Unable to retrieve video metadata")
  }

  /** The message has none of the first letters of the texts the catch block looks for. */
  predicate LacksInitials(m: string)
  {
    'S' !in m && 'P' !in m && 'V' !in m && 'C' !in m && 'U' !in m
  }

  /** A message without the first letter of any of the texts the catch block looks for
      mentions none of them. */
  lemma MentionsNothingWithoutInitials(m: string)
    requires LacksInitials(m)
    ensures !MentionsKnownFailure(m)
  {
    MissingCharExcludes(m, "Sign in to confirm your age", 0);
    MissingCharExcludes(m, "Private video", 0);
    MissingCharExcludes(m, "Video unavailable", 0);
    MissingCharExcludes(m, "Could not extract functions", 0);
    MissingCharExcludes(m, "Unable to retrieve video metadata", 0);
  }

  lemma ExtractionMessagePairFree(a: char, b: char)
    requires (a, b) == ('P', 'r') || (a, b) == ('e', 'v')
    ensures PairFree(ExtractionMessage, a, b)
  {
    var p1, p2, p3 := "Unable to extract video ", "information. YouTube may ", "have changed their API. ";
    var p4, p5 := "Try updating ytdl-core ", "or try again later.";
    PairFreeAppend(p1, p2, a, b);
    PairFreeAppend(p1 + p2, p3, a, b);
    PairFreeAppend(p1 + p2 + p3, p4, a, b);
    PairFreeAppend(p1 + p2 + p3 + p4, p5, a, b);
  }

  /** The extraction message has no `S`, `V` or `C`, so no text starting with one occurs in it. */
  lemma ExtractionLacksInitial(p: string)
    requires p != [] && (p[0] == 'S' || p[0] == 'V' || p[0] == 'C')
    ensures !Includes(ExtractionMessage, p)
  {
    MissingCharExcludes(ExtractionMessage, p, 0);
  }

  lemma ExtractionMentionsNoPrivate()
    ensures !Includes(ExtractionMessage, "Private video")
  {
    ExtractionMessagePairFree('P', 'r');
    MissingPairExcludes(ExtractionMessage, "Private video", 0);
  }

  lemma ExtractionMentionsNoMetadata()
    ensures !Includes(ExtractionMessage, "Unable to retrieve video metadata")
  {
    ExtractionMessagePairFree('e', 'v');
    MissingPairExcludes(ExtractionMessage, "Unable to retrieve video metadata", 15);
  }

  lemma ExtractionMentionsNothing()
    ensures !MentionsKnownFailure(ExtractionMessage)
  {
    ExtractionLacksInitial("Sign in to confirm your age");
    ExtractionMentionsNoPrivate();
    ExtractionLacksInitial("Video unavailable");
    ExtractionLacksInitial("Could not extract functions");
    ExtractionMentionsNoMetadata();
  }

  // The solver reads long string literals poorly, so the three lemmas below check the
  // fixed messages a few characters at a time.

  lemma AgeRestrictedLacksInitials()
    ensures LacksInitials(AgeRestrictedMessage)
  {
    assert LacksInitials("This video");
    assert LacksInitials(" is age-re");
    assert LacksInitials("stricted");
    assert LacksInitials(" and canno");
    assert LacksInitials("t be downl");
    assert LacksInitials("oaded");
    assert "This video is age-restricted" == "This video" + " is age-re" + "stricted";
    assert " and cannot be downloaded" == " and canno" + "t be downl" + "oaded";
  }

  lemma PrivateLacksInitials()
    ensures LacksInitials(PrivateMessage)
  {
    assert LacksInitials("This video");
    assert LacksInitials(" is privat");
    assert LacksInitials("e");
    assert LacksInitials(" and canno");
    assert LacksInitials("t be downl");
    assert LacksInitials("oaded");
    assert "This video is private" == "This video" + " is privat" + "e";
    assert " and cannot be downloaded" == " and canno" + "t be downl" + "oaded";
  }

  lemma UnavailableLacksInitials()
    ensures LacksInitials(UnavailableMessage)
  {
    assert LacksInitials("This video") && LacksInitials(" is unavai") && LacksInitials("lable");
    assert UnavailableMessage == "This video" + " is unavai" + "lable";
  }

  /** None of the four replacement messages mentions a text the catch block looks for, so
      whatever the catch block throws it would pass through unchanged. */
  lemma RewrittenMentionsNothing(message: string)
    ensures !MentionsKnownFailure(TranslateError(message))
  {
    if Includes(message, "Sign in to confirm your age") {
      AgeRestrictedMentionsNothing();
    } else if Includes(message, "Private video") {
      PrivateMentionsNothing();
    } else if Includes(message, "Video unavailable") {
      UnavailableMentionsNothing();
    } else if MentionsKnownFailure(message) {
      ExtractionMentionsNothing();
    }
  }

  lemma AgeRestrictedMentionsNothing()
    ensures !MentionsKnownFailure(AgeRestrictedMessage)
  {
    AgeRestrictedLacksInitials();
    MentionsNothingWithoutInitials(AgeRestrictedMessage);
  }

  lemma PrivateMentionsNothing()
    ensures !MentionsKnownFailure(PrivateMessage)
  {
    PrivateLacksInitials();
    MentionsNothingWithoutInitials(PrivateMessage);
  }

  lemma UnavailableMentionsNothing()
    ensures !MentionsKnownFailure(UnavailableMessage)
  {
    UnavailableLacksInitials();
    MentionsNothingWithoutInitials(UnavailableMessage);
  }

  /** The catch block changes a message exactly when it mentions one of the texts it looks
      for; any other error is rethrown as it is. */
  lemma TranslateErrorChangesExactlyMentions(message: string)
    ensures TranslateError(message) == message <==> !MentionsKnownFailure(message)
  {
    RewrittenMentionsNothing(message);
  }

  /** Rewriting is idempotent: a message that was rewritten once is left alone. */
  lemma TranslateErrorIdempotent(message: string)
    ensures TranslateError(TranslateError(message)) == TranslateError(message)
  {
    RewrittenMentionsNothing(message);
    TranslateErrorChangesExactlyMentions(TranslateError(message));
  }

  /** `getVideoInfo(url, quality)` as written. `fetched` is what `ytdl.getInfo(url)`
      produced: the format list, or the message of the error it threw. Every error thrown
      inside the `try` block, the selection's own included, goes through the rewriting. */
  function GetVideoInfo(fetched: Result<seq<Format>, string>, quality: string, library: Option<Format>): Result<Format, string>
  {
    match fetched
    case Failure(message) => Failure(TranslateError(message))
    case Success(formats) =>
      match SelectFormat(formats, quality, library)
      case Success(chosen) => Success(chosen)
      case Failure(message) => Failure(TranslateError(message))
  }

  lemma PrivateVideoIsNotANumber()
    ensures ParseInt("Private video") == None
  {
    var quality := "Private video";
    assert TrimStart(quality) == quality;
    assert Unsigned(quality) == quality;
    assert DigitRun(quality, false) == 0;
  }

  lemma InvalidQualityMentionsPrivateVideo()
    ensures TranslateError(InvalidQualityMessage("Private video")) == PrivateMessage
  {
    var quality := "Private video";
    var m := InvalidQualityMessage(quality);
    var head := "Invalid quality option: ";
    var tail1, tail2 := ". Use \"highest\", \"lowest\", ", "or a number like \"720p\"";
    assert m == head + quality + tail1 + tail2;
    MissingCharExcludes(m, "Sign in to confirm your age", 0);
    assert m[|head|..][..|quality|] == quality;
    IncludesAt(m, "Private video", |head|);
  }

  /** As written, a quality option that happens to contain "Private video" is reported as
      a private video: the rewriting reads the user's text quoted in the invalid-quality
      message. */
  lemma QualityReportedAsPrivateVideo()
    ensures GetVideoInfo(Success([Mp4(720)]), "Private video", None) == Failure(PrivateMessage)
  {
    PrivateVideoIsNotANumber();
    FilterKeepsAll([Mp4(720)], IsMp4WithAudio);
    assert SelectFormat([Mp4(720)], "Private video", None) == Failure(InvalidQualityMessage("Private video"));
    InvalidQualityMentionsPrivateVideo();
  }

  /** `getVideoInfo` as evidently intended: only the errors of `ytdl.getInfo` are
      rewritten; the selection's own errors keep their message. */
  function GetVideoInfoIntended(fetched: Result<seq<Format>, string>, quality: string, library: Option<Format>): Result<Format, string>
  {
    match fetched
    case Failure(message) => Failure(TranslateError(message))
    case Success(formats) => SelectFormat(formats, quality, library)
  }

  /** With the intended rewriting, a quality that cannot be read is always reported as
      such, quoting the quality, whatever text it holds. */
  lemma IntendedReportsInvalidQuality(formats: seq<Format>, quality: string, library: Option<Format>)
    requires exists f :: f in formats && f.hasVideo
    requires quality != "highest" && quality != "lowest" && ParseInt(quality).None?
    ensures GetVideoInfoIntended(Success(formats), quality, library) == Failure(InvalidQualityMessage(quality))
  {
    SelectFormatErrors(formats, quality, library);
  }

  /** The two readings agree except on the message of the selection's own errors. */
  lemma IntendedAgreesWithWritten(fetched: Result<seq<Format>, string>, quality: string, library: Option<Format>)
    ensures GetVideoInfo(fetched, quality, library).Success? == GetVideoInfoIntended(fetched, quality, library).Success?
    ensures GetVideoInfo(fetched, quality, library).Success? || fetched.Failure? ==>
      GetVideoInfo(fetched, quality, library) == GetVideoInfoIntended(fetched, quality, library)
  {
  }
}
