/** The names the downloader writes and deletes: `sanitizeFilename`, the choice between the
    `output` option and the video title followed by the `.mp4` suffix step in
    `downloadVideo`, and the pattern that recognises ytdl-core's `<digits>-player-script.js`
    debug files. */
module FileNames {
  import opened Wrappers
  import opened JsText

  /** The length `substring(0, 200)` cuts a sanitized name to. */
  const MaxNameLength: nat := 200

  const Mp4Suffix := ".mp4"

  const PlayerScriptSuffix := "-player-script.js"

  // ---------------------------------------------------------------------------------
  // sanitizeFilename
  // ---------------------------------------------------------------------------------

  /** A character of the class `[<>:"/\\|?*]` that the first `replace` deletes. */
  predicate IsIllegal(c: char)
  {
    || c == '<' || c == '>' || c == ':' || c == '"' || c == '/'
    || c == '\\' || c == '|' || c == '?' || c == '*'
  }

  predicate NoIllegal(s: string)
  {
    forall i :: 0 <= i < |s| ==> !IsIllegal(s[i])
  }

  /** White space only as single plain spaces: what `replace(/\s+/g, ' ')` leaves. */
  predicate SingleSpaced(s: string)
  {
    && (forall i :: 0 <= i < |s| && IsSpace(s[i]) ==> s[i] == ' ')
    && (forall i :: 0 <= i < |s| - 1 ==> !(IsSpace(s[i]) && IsSpace(s[i + 1])))
  }

  /** What every name `sanitizeFilename` returns looks like. */
  predicate IsSanitized(s: string)
  {
    && |s| <= MaxNameLength
    && NoIllegal(s)
    && SingleSpaced(s)
    && (s != [] ==> !IsSpace(s[0]))
  }

  /** `replace(/[<>:"/\\|?*]/g, '')`: the illegal characters are deleted, every other
      character is kept. */
  function StripIllegal(s: string): (r: string)
    ensures NoIllegal(r)
    ensures forall c :: c in r <==> c in s && !IsIllegal(c)
  {
    if s == [] then []
    else (if IsIllegal(s[0]) then [] else [s[0]]) + StripIllegal(s[1..])
  }

  /** Deleting keeps the order: the kept characters of `a + b` are those of `a`, then those
      of `b`. */
  lemma {:induction false} StripIllegalAppend(a: string, b: string)
    ensures StripIllegal(a + b) == StripIllegal(a) + StripIllegal(b)
  {
    if a == [] {
      assert a + b == b;
    } else {
      assert (a + b)[1..] == a[1..] + b;
      StripIllegalAppend(a[1..], b);
    }
  }

  /** A name without illegal characters is left as it is. */
  lemma {:induction false} StripIllegalOfClean(s: string)
    requires NoIllegal(s)
    ensures StripIllegal(s) == s
  {
    if s != [] {
      StripIllegalOfClean(s[1..]);
    }
  }

  /** Putting one character in front keeps a name single-spaced, unless it is white space
      that is not a plain space or that meets more white space. */
  lemma SingleSpacedCons(c: char, x: string)
    requires SingleSpaced(x)
    requires IsSpace(c) ==> c == ' ' && (x != [] ==> !IsSpace(x[0]))
    ensures SingleSpaced([c] + x)
  {
    var y := [c] + x;
    forall i | 0 <= i < |y| - 1
      ensures !(IsSpace(y[i]) && IsSpace(y[i + 1]))
    {
      if i > 0 {
        assert y[i] == x[i - 1] && y[i + 1] == x[i];
      }
    }
  }

  /** `replace(/\s+/g, ' ')`: every maximal run of white space becomes one plain space. */
  function Collapse(s: string): (r: string)
    ensures SingleSpaced(r)
    ensures s != [] && !IsSpace(s[0]) ==> r != [] && r[0] == s[0]
    decreases |s|
  {
    if s == [] then []
    else if IsSpace(s[0]) then
      var x := Collapse(TrimStart(s));
      SingleSpacedCons(' ', x);
      [' '] + x
    else
      var x := Collapse(s[1..]);
      SingleSpacedCons(s[0], x);
      [s[0]] + x
  }

  /** Collapsing changes white space only. */
  lemma {:induction false} CollapseKeepsText(s: string)
    ensures NonSpace(Collapse(s)) == NonSpace(s)
    decreases |s|
  {
    if s != [] {
      if IsSpace(s[0]) {
        var x := Collapse(TrimStart(s));
        CollapseKeepsText(TrimStart(s));
        TrimStartKeepsNonSpace(s);
        assert ([' '] + x)[1..] == x;
      } else {
        var x := Collapse(s[1..]);
        CollapseKeepsText(s[1..]);
        assert ([s[0]] + x)[1..] == x;
      }
    }
  }

  /** Collapsing brings in no character but the plain space, so no illegal one. */
  lemma {:induction false} CollapseKeepsLegal(s: string)
    requires NoIllegal(s)
    ensures NoIllegal(Collapse(s))
    decreases |s|
  {
    if s != [] {
      var t := if IsSpace(s[0]) then TrimStart(s) else s[1..];
      assert NoIllegal(t) by {
        forall i | 0 <= i < |t| ensures !IsIllegal(t[i]) {
          assert t[i] == s[|s| - |t| + i];
        }
      }
      CollapseKeepsLegal(t);
    }
  }

  /** Dropping the first character keeps a name single-spaced. */
  lemma SingleSpacedTail(s: string)
    requires SingleSpaced(s) && s != []
    ensures SingleSpaced(s[1..])
  {
    var t := s[1..];
    forall i | 0 <= i < |t| - 1
      ensures !(IsSpace(t[i]) && IsSpace(t[i + 1]))
    {
      assert t[i] == s[i + 1] && t[i + 1] == s[i + 2];
    }
  }

  /** A name that is already single-spaced is left as it is. */
  lemma {:induction false} CollapseOfSingleSpaced(s: string)
    requires SingleSpaced(s)
    ensures Collapse(s) == s
  {
    if s != [] {
      SingleSpacedTail(s);
      CollapseOfSingleSpaced(s[1..]);
      CollapseStep(s);
      if IsSpace(s[0]) {
        var t := s[1..];
        assert t != [] ==> !IsSpace(t[0]);
        assert TrimStart(t) == t;
        assert TrimStart(s) == t;
        assert s == [' '] + t;
      } else {
        assert s == [s[0]] + s[1..];
      }
    }
  }

  /** A run made only of white space collapses to one plain space. */
  lemma CollapseOfSpaces(w: string)
    requires w != []
    requires forall i :: 0 <= i < |w| ==> IsSpace(w[i])
    ensures Collapse(w) == " "
  {
    assert w + [] == w;
    TrimStartSkipsSpace(w, []);
  }

  /** Trimming the front of `x + y` trims the front of `x`, and reaches into `y` only when
      `x` is all white space. */
  lemma {:induction false} TrimStartAppend(x: string, y: string)
    ensures TrimStart(x) != [] ==> TrimStart(x + y) == TrimStart(x) + y
    ensures TrimStart(x) == [] ==> TrimStart(x + y) == TrimStart(y)
  {
    if x == [] {
      assert x + y == y;
    } else {
      var z := x + y;
      assert z[0] == x[0] && z[1..] == x[1..] + y;
      if IsSpace(x[0]) {
        TrimStartAppend(x[1..], y);
      }
    }
  }

  /** Concatenation regroups freely; stated on its own so that callers need not rediscover it. */
  lemma ConcatAssoc(a: string, b: string, c: string)
    ensures a + (b + c) == (a + b) + c
  {
  }

  /** One step of `Collapse`, for a visible or a white-space first character. */
  lemma CollapseStep(s: string)
    requires s != []
    ensures !IsSpace(s[0]) ==> Collapse(s) == [s[0]] + Collapse(s[1..])
    ensures IsSpace(s[0]) ==> Collapse(s) == [' '] + Collapse(TrimStart(s))
  {
  }

  /** Collapsing works run by run: where `x` and `y` meet, at least one side is visible, so
      no run of white space is split, and the two halves collapse independently. */
  lemma {:induction false} CollapseAppend(x: string, y: string)
    requires x == [] || y == [] || !IsSpace(x[|x| - 1]) || !IsSpace(y[0])
    ensures Collapse(x + y) == Collapse(x) + Collapse(y)
    decreases |x|, 1
  {
    if x == [] {
      assert x + y == y;
    } else if !IsSpace(x[0]) {
      CollapseAppendAfterVisible(x, y);
    } else {
      var z := x + y;
      assert z[0] == x[0];
      CollapseStep(x);
      CollapseStep(z);
      CollapseAppendAfterSpace(x, y);
      ConcatAssoc([' '], Collapse(TrimStart(x)), Collapse(y));
    }
  }

  /** The case of `CollapseAppend` where `x` starts with a visible character. */
  lemma {:induction false} CollapseAppendAfterVisible(x: string, y: string)
    requires x != [] && !IsSpace(x[0])
    requires y == [] || !IsSpace(x[|x| - 1]) || !IsSpace(y[0])
    ensures Collapse(x + y) == Collapse(x) + Collapse(y)
    decreases |x|, 0
  {
    var u := x[1..];
    var z := x + y;
    assert z[0] == x[0] && z[1..] == u + y;
    assert u == [] || y == [] || !IsSpace(u[|u| - 1]) || !IsSpace(y[0]) by {
      if u != [] {
        assert u[|u| - 1] == x[|x| - 1];
      }
    }
    CollapseStep(x);
    CollapseStep(z);
    CollapseAppend(u, y);
    ConcatAssoc([x[0]], Collapse(u), Collapse(y));
  }

  /** The case of `CollapseAppend` where `x` starts with white space. */
  lemma {:induction false} CollapseAppendAfterSpace(x: string, y: string)
    requires x != [] && IsSpace(x[0])
    requires y == [] || !IsSpace(x[|x| - 1]) || !IsSpace(y[0])
    ensures Collapse(TrimStart(x + y)) == Collapse(TrimStart(x)) + Collapse(y)
    decreases |x|, 0
  {
    var t := TrimStart(x);
    TrimStartAppend(x, y);
    if t == [] {
      assert TrimStart(y) == y by {
        if y != [] {
          assert !IsSpace(y[0]);
        }
      }
    } else {
      assert t[|t| - 1] == x[|x| - 1];
      CollapseAppend(t, y);
    }
  }

  lemma CollapseIdempotent(s: string)
    ensures Collapse(Collapse(s)) == Collapse(s)
  {
    CollapseOfSingleSpaced(Collapse(s));
  }

  /** A slice of a single-spaced name without illegal characters is one too. */
  lemma CleanSlice(s: string, i: nat, j: nat)
    requires NoIllegal(s) && SingleSpaced(s) && i <= j <= |s|
    ensures NoIllegal(s[i..j]) && SingleSpaced(s[i..j])
  {
    var t := s[i..j];
    forall k | 0 <= k < |t|
      ensures !IsIllegal(t[k]) && (IsSpace(t[k]) ==> t[k] == ' ')
    {
      assert t[k] == s[i + k];
    }
    forall k | 0 <= k < |t| - 1
      ensures !(IsSpace(t[k]) && IsSpace(t[k + 1]))
    {
      assert t[k] == s[i + k] && t[k + 1] == s[i + k + 1];
    }
  }

  /** `substring(0, n)` with `n >= 0`: the first `n` characters, or the whole string when
      it is shorter. */
  function Prefix(s: string, n: nat): (r: string)
    ensures r <= s && |r| <= n
    ensures |s| <= n ==> r == s
    ensures |s| > n ==> |r| == n
  {
    if |s| <= n then s else s[..n]
  }

  /** Trimming and cutting a single-spaced name without illegal characters gives a
      sanitized name. */
  lemma TrimAndCut(c: string)
    requires NoIllegal(c) && SingleSpaced(c)
    ensures IsSanitized(Prefix(Trim(c), MaxNameLength))
  {
    var k := |c| - |TrimStart(c)|;
    var t := Trim(c);
    TrimSpec(c);
    CleanSlice(c, k, |c|);
    CleanSlice(c[k..], 0, |t|);
    CleanSlice(t, 0, |Prefix(t, MaxNameLength)|);
  }

  /** `sanitizeFilename`: delete the illegal characters, collapse white space, trim, and
      cut to 200 characters. */
  function Sanitize(s: string): (r: string)
    ensures IsSanitized(r)
  {
    var c := Collapse(StripIllegal(s));
    CollapseKeepsLegal(StripIllegal(s));
    TrimAndCut(c);
    Prefix(Trim(c), MaxNameLength)
  }

  /** Sanitizing loses no visible character other than the illegal ones, except that cutting
      to 200 characters drops the tail; a name shorter than 200 has lost nothing. */
  lemma SanitizeKeepsText(s: string)
    ensures NonSpace(Sanitize(s)) <= NonSpace(StripIllegal(s))
    ensures |Sanitize(s)| < MaxNameLength ==> NonSpace(Sanitize(s)) == NonSpace(StripIllegal(s))
  {
    var c := Collapse(StripIllegal(s));
    CollapseKeepsText(StripIllegal(s));
    TrimKeepsText(c);
    CutKeepsText(Trim(c), MaxNameLength);
  }

  lemma TrimKeepsText(c: string)
    ensures NonSpace(Trim(c)) == NonSpace(c)
  {
    TrimStartKeepsNonSpace(c);
    TrimEndKeepsNonSpace(TrimStart(c));
  }

  lemma CutKeepsText(t: string, n: nat)
    ensures NonSpace(Prefix(t, n)) <= NonSpace(t)
    ensures |Prefix(t, n)| < n ==> NonSpace(Prefix(t, n)) == NonSpace(t)
  {
    var r := Prefix(t, n);
    assert t == r + t[|r|..];
    NonSpaceAppend(r, t[|r|..]);
  }

  /** What sanitizing a sanitized name does: nothing but trimming its end, which a name
      that was cut right after a space still needs. */
  lemma SanitizeOfSanitized(s: string)
    requires IsSanitized(s)
    ensures Sanitize(s) == TrimEnd(s)
  {
    StripIllegalOfClean(s);
    CollapseOfSingleSpaced(s);
    assert TrimStart(s) == s;
  }

  /** Trimming the end of a sanitized name drops at most its one trailing space. */
  lemma TrimEndOfSanitized(s: string)
    requires IsSanitized(s)
    ensures TrimEnd(s) == s || (s != [] && s[|s| - 1] == ' ' && TrimEnd(s) == s[..|s| - 1])
  {
    var r := TrimEnd(s);
    if r != s {
      assert IsSpace(s[|s| - 1]);
      if |s| >= 2 {
        assert !IsSpace(s[|s| - 2]);
      }
    }
  }

  /** Sanitizing twice equals sanitizing once exactly when the first result does not end
      in a space. */
  lemma SanitizeIdempotentUnlessTrailingSpace(s: string)
    ensures var r := Sanitize(s);
      Sanitize(r) == r <==> r == [] || r[|r| - 1] != ' '
  {
    var r := Sanitize(s);
    SanitizeOfSanitized(r);
    TrimEndOfSanitized(r);
  }

  /** Two words joined by one space form a clean name with no white space at either end. */
  lemma JoinedWords(w: string, v: string)
    requires w != [] && v != []
    requires forall i :: 0 <= i < |w| ==> !IsSpace(w[i]) && !IsIllegal(w[i])
    requires forall i :: 0 <= i < |v| ==> !IsSpace(v[i]) && !IsIllegal(v[i])
    ensures var s := w + " " + v;
      NoIllegal(s) && SingleSpaced(s) && !IsSpace(s[0]) && !IsSpace(s[|s| - 1])
  {
    var s := w + " " + v;
    forall i | 0 <= i < |s|
      ensures !IsIllegal(s[i]) && (IsSpace(s[i]) ==> i == |w|)
    {
      if i < |w| {
        assert s[i] == w[i];
      } else if i > |w| {
        assert s[i] == v[i - |w| - 1];
      }
    }
  }

  /** A clean name with no white space at either end is only cut to length. */
  lemma SanitizeOfTrimmedClean(s: string)
    requires NoIllegal(s) && SingleSpaced(s)
    requires s != [] ==> !IsSpace(s[0]) && !IsSpace(s[|s| - 1])
    ensures Sanitize(s) == Prefix(s, MaxNameLength)
  {
    StripIllegalOfClean(s);
    CollapseOfSingleSpaced(s);
    TrimOfTrimmed(s);
  }

  /** A name of 199 visible characters followed by a space and one more character is cut
      right after the space; sanitizing that result trims the space away. */
  lemma CutAfterSpace(w: string)
    requires |w| == MaxNameLength - 1
    requires forall i :: 0 <= i < |w| ==> !IsSpace(w[i]) && !IsIllegal(w[i])
    ensures Sanitize(w + " b") == w + " "
    ensures Sanitize(w + " ") == w
  {
    JoinedWords(w, "b");
    assert w + " b" == w + " " + "b";
    SanitizeOfTrimmedClean(w + " b");
    assert (w + " b")[..MaxNameLength] == w + " ";
    SanitizeOfSanitized(w + " ");
    TrimEndOfSanitized(w + " ");
    assert (w + " ")[..|w|] == w;
  }

  /** `sanitizeFilename` is not idempotent. */
  lemma SanitizeNotIdempotent()
    ensures exists s :: Sanitize(Sanitize(s)) != Sanitize(s)
  {
    var w := seq(MaxNameLength - 1, i => 'a');
    CutAfterSpace(w);
    var s := w + " b";
    assert |Sanitize(Sanitize(s))| != |Sanitize(s)|;
  }

  // ---------------------------------------------------------------------------------
  // The output name in downloadVideo
  // ---------------------------------------------------------------------------------

  /** `if (!filename.endsWith('.mp4')) filename += '.mp4'`. */
  function WithMp4Suffix(name: string): (r: string)
    ensures EndsWith(r, Mp4Suffix)
    ensures name <= r && (|r| == |name| || |r| == |name| + |Mp4Suffix|)
    ensures r == name <==> EndsWith(name, Mp4Suffix)
  {
    if EndsWith(name, Mp4Suffix) then name else name + Mp4Suffix
  }

  lemma WithMp4SuffixIdempotent(name: string)
    ensures WithMp4Suffix(WithMp4Suffix(name)) == WithMp4Suffix(name)
  {
  }

  /** The suffix brings in no illegal character and no leading white space. */
  lemma WithMp4SuffixKeepsLegal(name: string)
    requires NoIllegal(name)
    ensures NoIllegal(WithMp4Suffix(name))
    ensures name == [] ==> WithMp4Suffix(name) == Mp4Suffix
  {
    var r := WithMp4Suffix(name);
    forall i | 0 <= i < |r| ensures !IsIllegal(r[i]) {
      if i >= |name| {
        var j := i - |name|;
        assert r[i] == Mp4Suffix[j];
        assert j == 0 || j == 1 || j == 2 || j == 3;
      }
    }
  }

  /** A sanitized name with `.mp4` ensured keeps every property `OutputFileName` promises. */
  lemma SuffixedSanitizedName(name: string)
    requires IsSanitized(name)
    ensures var r := WithMp4Suffix(name);
      && EndsWith(r, Mp4Suffix) && NoIllegal(r) && |r| <= MaxNameLength + |Mp4Suffix|
      && r != [] && !IsSpace(r[0])
  {
    WithMp4SuffixKeepsLegal(name);
    var r := WithMp4Suffix(name);
    if name != [] {
      assert r[0] == name[0];
    }
  }

  /** The file name `downloadVideo` writes to: the `output` option when it is given and not
      empty (a truthy string), otherwise the video title, sanitized and given the `.mp4`
      suffix. */
  function OutputFileName(output: Option<string>, title: string): (r: string)
    ensures EndsWith(r, Mp4Suffix)
    ensures NoIllegal(r)
    ensures |r| <= MaxNameLength + |Mp4Suffix|
    ensures r != [] && !IsSpace(r[0])
  {
    var chosen := if output.Some? && output.value != [] then output.value else title;
    var name := Sanitize(chosen);
    SuffixedSanitizedName(name);
    WithMp4Suffix(name)
  }

  /** A non-empty `output` decides the name alone: it begins with the sanitized option,
      and the title plays no part. */
  lemma GivenOutputIsUsed(output: string, title: string, other: string)
    requires output != []
    ensures Sanitize(output) <= OutputFileName(Some(output), title)
    ensures OutputFileName(Some(output), title) == OutputFileName(Some(output), other)
  {
  }

  /** Without a usable `output` the name begins with the sanitized title. */
  lemma MissingOutputUsesTitle(output: Option<string>, title: string)
    requires output == None || output == Some([])
    ensures Sanitize(title) <= OutputFileName(output, title)
  {
  }

  lemma NonSpaceOfVisibleHead(x: string)
    ensures x != [] && !IsSpace(x[0]) ==> NonSpace(x) != []
  {
  }

  /** A string with no visible character: the empty string is its only trim. */
  lemma TrimOfBlank(s: string)
    requires NonSpace(s) == []
    ensures Trim(s) == []
  {
    TrimSpec(s);
    NonSpaceOfVisibleHead(Trim(s));
  }

  /** A non-empty `output` is used even when sanitizing leaves nothing of it: the title is
      then not consulted and the file is called just `.mp4`. */
  lemma BlankOutputIgnoresTitle(output: string, title: string)
    requires output != []
    requires forall i :: 0 <= i < |output| ==> IsSpace(output[i]) || IsIllegal(output[i])
    ensures OutputFileName(Some(output), title) == Mp4Suffix
  {
    var k := StripIllegal(output);
    assert forall i :: 0 <= i < |k| ==> IsSpace(k[i]) by {
      forall i | 0 <= i < |k| ensures IsSpace(k[i]) {
        assert k[i] in output;
      }
    }
    NonSpaceOfSpaces(k);
    CollapseKeepsText(k);
    TrimOfBlank(Collapse(k));
    WithMp4SuffixKeepsLegal(Sanitize(output));
  }

  // ---------------------------------------------------------------------------------
  // The player-script debug files
  // ---------------------------------------------------------------------------------

  /** `/^\d+-player-script\.js$/.test(name)`: the leading run of ASCII digits is non-empty
      and the rest is exactly `-player-script.js`. */
  predicate IsPlayerScript(name: string)
  {
    var n := DigitRun(name, false);
    n > 0 && name[n..] == PlayerScriptSuffix
  }

  /** The pattern read declaratively: some non-empty digit string followed by the suffix. */
  predicate MatchesPlayerScriptPattern(name: string)
  {
    exists k :: 0 < k <= |name|
      && (forall i :: 0 <= i < k ==> IsDecimalDigit(name[i]))
      && name[k..] == PlayerScriptSuffix
  }

  lemma IsPlayerScriptMatchesPattern(name: string)
    ensures IsPlayerScript(name) <==> MatchesPlayerScriptPattern(name)
  {
    var n := DigitRun(name, false);
    if IsPlayerScript(name) {
      assert 0 < n <= |name|
        && (forall i :: 0 <= i < n ==> IsDecimalDigit(name[i]))
        && name[n..] == PlayerScriptSuffix;
    }
    if MatchesPlayerScriptPattern(name) {
      var k :| 0 < k <= |name|
        && (forall i :: 0 <= i < k ==> IsDecimalDigit(name[i]))
        && name[k..] == PlayerScriptSuffix;
      assert name[k] == '-';
      assert !IsDigitOf(name[k], false);
      assert n == k;
    }
  }

  /** Every name ytdl-core gives its debug files, a number then the suffix, matches. */
  lemma NumberedPlayerScriptMatches(n: nat)
    ensures IsPlayerScript(ShowNat(n) + PlayerScriptSuffix)
  {
    var ds := ShowNat(n);
    assert PlayerScriptSuffix[0] == '-';
    DigitRunOfDigits(ds, PlayerScriptSuffix, false);
    assert (ds + PlayerScriptSuffix)[|ds|..] == PlayerScriptSuffix;
  }

  /** The bare suffix, with no number in front, does not match. */
  lemma UnnumberedPlayerScriptDoesNotMatch()
    ensures !IsPlayerScript(PlayerScriptSuffix)
  {
    assert PlayerScriptSuffix[0] == '-';
  }
}
