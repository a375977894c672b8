/**
 * Font discovery: each file of the font directory listing loses the first
 * occurrence of the directory prefix, is percent-decoded, and is kept when the
 * decoded name matches the font-file pattern. Kept files are appended, in
 * listing order, to the module-level list of available fonts. A decoding
 * failure (or a failed listing) ends the scan with one warning.
 */
module Fonts {
  import opened Wrappers
  import Uri
  import Logging

  const FontDir: string := "modules/dynamic-actor-intros/fonts"
  const FontDirPrefix: string := FontDir + "/"

  /** One entry of AVAILABLE_FONTS. */
  datatype FontEntry = FontEntry(name: string, path: string)

  // ---------------------------------------------------------------------
  // String.prototype.replace with a string pattern: first occurrence only

  predicate OccursAt(s: string, p: string, i: nat)
  {
    i + |p| <= |s| && s[i..i + |p|] == p
  }

  /** The leftmost occurrence of p in s at or after index from. */
  function IndexOfFrom(s: string, p: string, from: nat): (r: Option<nat>)
    ensures r.Some? ==> from <= r.value && OccursAt(s, p, r.value)
    ensures r.Some? ==> forall j | from <= j < r.value :: !OccursAt(s, p, j)
    ensures r.None? ==> forall j | from <= j :: !OccursAt(s, p, j)
    decreases |s| - from
  {
    if OccursAt(s, p, from) then Some(from)
    else if from + |p| >= |s| then None
    else IndexOfFrom(s, p, from + 1)
  }

  function ReplaceFirst(s: string, p: string, replacement: string): string
  {
    match IndexOfFrom(s, p, 0)
    case None => s
    case Some(k) => s[..k] + replacement + s[k + |p|..]
  }

  /** A path that starts with the prefix loses exactly that copy; later copies stay. */
  lemma StripLeadingPrefix(p: string, rest: string)
    ensures ReplaceFirst(p + rest, p, "") == rest
  {
    assert OccursAt(p + rest, p, 0);
    assert (p + rest)[|p|..] == rest;
  }

  /** A path without the prefix is left as it is. */
  lemma ReplaceFirstWithoutOccurrence(s: string, p: string)
    requires forall j | 0 <= j :: !OccursAt(s, p, j)
    ensures ReplaceFirst(s, p, "") == s
  {
  }

  // ---------------------------------------------------------------------
  // The pattern "^([^\/]+)\.(ttf|otf|woff2?)$", written as a string literal

  /**
   * How the character between the name and the extension is matched. The
   * string literal turns `\.` into `.`, which matches any character but a
   * line terminator (AnyChar, the code as written); the evident intent is a
   * literal dot (LiteralDot).
   */
  datatype SeparatorRule = AnyChar | LiteralDot

  const AsWritten: SeparatorRule := AnyChar

  predicate IsLineTerminator(c: char)
  {
    c == '\n' || c == '\r' || c == '\U{2028}' || c == '\U{2029}'
  }

  predicate SeparatorMatches(rule: SeparatorRule, c: char)
  {
    match rule
    case AnyChar => !IsLineTerminator(c)
    case LiteralDot => c == '.'
  }

  /** `(ttf|otf|woff2?)`, case-sensitive. */
  predicate IsExtension(e: string)
  {
    e == "ttf" || e == "otf" || e == "woff" || e == "woff2"
  }

  /** The pattern matches s with capture group 1 equal to s[..k]. */
  predicate MatchesAt(rule: SeparatorRule, s: string, k: nat)
  {
    1 <= k < |s| && '/' !in s[..k] && SeparatorMatches(rule, s[k]) && IsExtension(s[k + 1..])
  }

  /** Only three places can end group 1: before a 3-, 4- or 5-letter extension. */
  lemma MatchCandidates(rule: SeparatorRule, s: string)
    ensures forall k: nat | MatchesAt(rule, s, k) :: k == |s| - 4 || k == |s| - 5 || k == |s| - 6
  {
    forall k: nat | MatchesAt(rule, s, k) ensures k == |s| - 4 || k == |s| - 5 || k == |s| - 6 {
      assert 3 <= |s[k + 1..]| <= 5;
    }
  }

  /**
   * String.prototype.match for the pattern: capture group 1, or None when
   * there is no match. The greedy `[^/]+` backtracks from the longest run, so
   * group 1 is the longest prefix after which the rest still matches.
   */
  function FontName(rule: SeparatorRule, s: string): (r: Option<string>)
    ensures r.Some? <==> exists k :: MatchesAt(rule, s, k)
    ensures r.Some? ==> MatchesAt(rule, s, |r.value|) && r.value == s[..|r.value|]
    ensures r.Some? ==> forall k: nat | MatchesAt(rule, s, k) :: k <= |r.value|
  {
    MatchCandidates(rule, s);
    if |s| >= 4 && MatchesAt(rule, s, |s| - 4) then
      assert |s[..|s| - 4]| == |s| - 4;
      Some(s[..|s| - 4])
    else if |s| >= 5 && MatchesAt(rule, s, |s| - 5) then
      assert |s[..|s| - 5]| == |s| - 5;
      Some(s[..|s| - 5])
    else if |s| >= 6 && MatchesAt(rule, s, |s| - 6) then
      assert |s[..|s| - 6]| == |s| - 6;
      Some(s[..|s| - 6])
    else
      assert forall k: nat :: !MatchesAt(rule, s, k);
      None
  }

  /** Every accepted name is non-empty and has no `/`. */
  lemma NameIsPlainFileStem(rule: SeparatorRule, s: string)
    requires FontName(rule, s).Some?
    ensures |FontName(rule, s).value| >= 1 && '/' !in FontName(rule, s).value
  {
  }

  /** A stem, one separator character and an extension yield exactly that stem, whatever dots the stem holds. */
  lemma StemIsCaptured(rule: SeparatorRule, stem: string, sep: char, ext: string)
    requires |stem| >= 1 && '/' !in stem && SeparatorMatches(rule, sep) && IsExtension(ext)
    ensures FontName(rule, stem + [sep] + ext) == Some(stem)
  {
    if ext == "woff" {
      StemBeforeWoff(rule, stem, sep);
    } else if ext == "woff2" {
      StemBeforeWoff2(rule, stem, sep);
    } else {
      StemBeforeShort(rule, stem, sep, ext);
    }
  }

  /** The pattern matches stem + sep + ext with group 1 ending after the stem. */
  lemma StemMatches(rule: SeparatorRule, stem: string, sep: char, ext: string)
    requires |stem| >= 1 && '/' !in stem && SeparatorMatches(rule, sep) && IsExtension(ext)
    ensures var s := stem + [sep] + ext;
      |s| == |stem| + 1 + |ext| && MatchesAt(rule, s, |stem|) && s[..|stem|] == stem
      && s[|stem| + 1..] == ext
  {
    var s := stem + [sep] + ext;
    assert s[..|stem|] == stem && s[|stem|] == sep && s[|stem| + 1..] == ext;
  }

  lemma StemBeforeShort(rule: SeparatorRule, stem: string, sep: char, ext: string)
    requires |stem| >= 1 && '/' !in stem && SeparatorMatches(rule, sep)
    requires ext == "ttf" || ext == "otf"
    ensures FontName(rule, stem + [sep] + ext) == Some(stem)
  {
    StemMatches(rule, stem, sep, ext);
  }

  /** Before `woff` the last four letters do not form an extension. */
  lemma StemBeforeWoff(rule: SeparatorRule, stem: string, sep: char)
    requires |stem| >= 1 && '/' !in stem && SeparatorMatches(rule, sep)
    ensures FontName(rule, stem + [sep] + "woff") == Some(stem)
  {
    StemMatches(rule, stem, sep, "woff");
    NameBeforeWoff(rule, stem + [sep] + "woff", stem);
  }

  lemma NameBeforeWoff(rule: SeparatorRule, s: string, stem: string)
    requires |s| >= 5 && MatchesAt(rule, s, |s| - 5) && s[|s| - 4..] == "woff" && s[..|s| - 5] == stem
    ensures FontName(rule, s) == Some(stem)
  {
    assert s[|s| - 3..] == "off";
    assert !MatchesAt(rule, s, |s| - 4);
  }

  /** Before `woff2` neither the last four nor the last five letters form an extension. */
  lemma StemBeforeWoff2(rule: SeparatorRule, stem: string, sep: char)
    requires |stem| >= 1 && '/' !in stem && SeparatorMatches(rule, sep)
    ensures FontName(rule, stem + [sep] + "woff2") == Some(stem)
  {
    StemMatches(rule, stem, sep, "woff2");
    NameBeforeWoff2(rule, stem + [sep] + "woff2", stem);
  }

  lemma NameBeforeWoff2(rule: SeparatorRule, s: string, stem: string)
    requires |s| >= 6 && MatchesAt(rule, s, |s| - 6) && s[|s| - 5..] == "woff2" && s[..|s| - 6] == stem
    ensures FontName(rule, s) == Some(stem)
  {
    assert s[|s| - 3..] == "ff2";
    assert s[|s| - 4..] == "off2";
    assert !MatchesAt(rule, s, |s| - 4);
    assert !MatchesAt(rule, s, |s| - 5);
  }

  /** The greedy group keeps every inner dot: "a.b.ttf" is registered as "a.b". */
  lemma GreedyNameKeepsInnerDots(rule: SeparatorRule)
    requires SeparatorMatches(rule, '.')
    ensures FontName(rule, "a.b.ttf") == Some("a.b")
  {
    StemIsCaptured(rule, "a.b", '.', "ttf");
    assert "a.b" + ['.'] + "ttf" == "a.b.ttf";
  }

  /** Extensions are matched case-sensitively: an upper-case `.TTF` is rejected. */
  lemma UpperCaseExtensionRejected(rule: SeparatorRule, stem: string)
    ensures FontName(rule, stem + ".TTF") == None
  {
    var s := stem + ".TTF";
    forall k: nat ensures !MatchesAt(rule, s, k) {
      if k < |s| {
        var e := s[k + 1..];
        if e != [] {
          assert e[|e| - 1] == s[|s| - 1] == 'F';
        }
      }
    }
  }

  /** As written, a name without any dot is accepted: "Arialttf" is registered as font "Aria". */
  lemma AsWrittenAcceptsMissingDot()
    ensures FontName(AsWritten, "Arialttf") == Some("Aria")
  {
    StemIsCaptured(AsWritten, "Aria", 'l', "ttf");
    assert "Aria" + ['l'] + "ttf" == "Arialttf";
  }

  /** As written, the separator may be `/`: the file "ttf" in subdirectory "sub" is registered as "sub". */
  lemma AsWrittenAcceptsSubdirectory()
    ensures FontName(AsWritten, "sub/ttf") == Some("sub")
  {
    StemIsCaptured(AsWritten, "sub", '/', "ttf");
    assert "sub" + ['/'] + "ttf" == "sub/ttf";
  }

  /** With a literal dot, a match splits the name exactly at the dot before the extension. */
  lemma IntendedSplitsAtDot(s: string)
    requires FontName(LiteralDot, s).Some?
    ensures var n := FontName(LiteralDot, s).value;
      s == n + "." + s[|n| + 1..] && IsExtension(s[|n| + 1..])
  {
    var n := FontName(LiteralDot, s).value;
    assert s == s[..|n|] + [s[|n|]] + s[|n| + 1..];
  }

  /** With a literal dot, no path containing `/` is accepted. */
  lemma IntendedRejectsSubdirectories(s: string)
    requires '/' in s
    ensures FontName(LiteralDot, s) == None
  {
    var i :| 0 <= i < |s| && s[i] == '/';
    forall k: nat | 1 <= k < |s| && s[k] == '.'
      ensures '/' in s[..k] || !IsExtension(s[k + 1..])
    {
      if i < k {
        assert s[..k][i] == '/';
      } else {
        var e := s[k + 1..];
        assert e[i - k - 1] == '/';
      }
    }
  }

  // ---------------------------------------------------------------------
  // One file of the listing

  /** What examining one listed file leads to. */
  datatype Verdict = Accept(entry: FontEntry) | Reject(decoded: string) | Undecodable(error: Uri.URIError)

  function Examine(rule: SeparatorRule, file: string): (v: Verdict)
    ensures v.Accept? ==> v.entry.path == file
  {
    var relative := ReplaceFirst(file, FontDirPrefix, "");
    match Uri.Decode(relative)
    case Failure(e) => Undecodable(e)
    case Success(decoded) =>
      match FontName(rule, decoded)
      case Some(name) => Accept(FontEntry(name, file))
      case None => Reject(decoded)
  }

  /** A file listed as the percent-encoding of `name.ext` is registered under name, with its listed path. */
  lemma EncodedFontIsRegistered(rule: SeparatorRule, name: string, ext: string)
    requires |name| >= 1 && '/' !in name && IsExtension(ext) && SeparatorMatches(rule, '.')
    ensures var path := FontDirPrefix + Uri.Encode(name + "." + ext);
      Examine(rule, path) == Accept(FontEntry(name, path))
  {
    var path := FontDirPrefix + Uri.Encode(name + "." + ext);
    StripLeadingPrefix(FontDirPrefix, Uri.Encode(name + "." + ext));
    Uri.DecodeEncode(name + "." + ext);
    StemIsCaptured(rule, name, '.', ext);
  }

  // ---------------------------------------------------------------------
  // The scan as a whole

  const FailureMessage: string := "Failed to load fonts:"

  function MismatchMessage(decoded: string): string
  {
    "File " + decoded + " does not match Regular Expression."
  }

  function Emit(line: Option<Logging.ConsoleLine>): seq<Logging.ConsoleLine>
  {
    match line
    case Some(l) => [l]
    case None => []
  }

  /** The fonts appended, the console lines written, and whether the scan stopped early. */
  datatype ScanState = ScanState(fonts: seq<FontEntry>, console: seq<Logging.ConsoleLine>, aborted: bool)

  /** The entry a verdict appends to AVAILABLE_FONTS. */
  function Appended(v: Verdict): seq<FontEntry>
  {
    if v.Accept? then [v.entry] else []
  }

  /** The console lines a verdict writes: the mismatch notice, or the warning that ends the scan. */
  function Logged(cfg: Logging.Config, v: Verdict): seq<Logging.ConsoleLine>
  {
    match v
    case Accept(_) => []
    case Reject(decoded) => Emit(Logging.LogInfo(cfg, MismatchMessage(decoded)))
    case Undecodable(_) => Emit(Logging.LogWarning(cfg, FailureMessage))
  }

  function Step(cfg: Logging.Config, st: ScanState, v: Verdict): ScanState
  {
    ScanState(st.fonts + Appended(v), st.console + Logged(cfg, v), st.aborted || v.Undecodable?)
  }

  /** The effect of the loop over a listing, file by file. */
  function Scan(rule: SeparatorRule, cfg: Logging.Config, files: seq<string>): ScanState
    decreases |files|
  {
    if files == [] then ScanState([], [], false)
    else
      var previous := Scan(rule, cfg, files[..|files| - 1]);
      if previous.aborted then previous
      else Step(cfg, previous, Examine(rule, files[|files| - 1]))
  }

  /** The effect of getAvailableFonts; None stands for a listing call that threw. */
  function Outcome(rule: SeparatorRule, cfg: Logging.Config, listing: Option<seq<string>>): ScanState
  {
    match listing
    case None => ScanState([], Emit(Logging.LogWarning(cfg, FailureMessage)), true)
    case Some(files) => Scan(rule, cfg, files)
  }

  /** One more file of a scan that has not stopped is one more step. */
  lemma ScanExtend(rule: SeparatorRule, cfg: Logging.Config, files: seq<string>, i: nat)
    requires i < |files| && !Scan(rule, cfg, files[..i]).aborted
    ensures Scan(rule, cfg, files[..i + 1]) == Step(cfg, Scan(rule, cfg, files[..i]), Examine(rule, files[i]))
  {
    assert files[..i + 1][..i] == files[..i];
  }

  /** A scan that fails to decode file i ends with the step for that file. */
  lemma AbortAt(rule: SeparatorRule, cfg: Logging.Config, files: seq<string>, i: nat)
    requires i < |files| && !Scan(rule, cfg, files[..i]).aborted && Examine(rule, files[i]).Undecodable?
    ensures Scan(rule, cfg, files) == Step(cfg, Scan(rule, cfg, files[..i]), Examine(rule, files[i]))
  {
    ScanExtend(rule, cfg, files, i);
    StopsAtPrefix(rule, cfg, files, i + 1);
  }

  /** A scan that has stopped within a prefix of the listing is the scan of the whole listing. */
  lemma StopsAtPrefix(rule: SeparatorRule, cfg: Logging.Config, files: seq<string>, n: nat)
    requires n <= |files| && Scan(rule, cfg, files[..n]).aborted
    ensures Scan(rule, cfg, files) == Scan(rule, cfg, files[..n])
  {
    ScanStopsAfterAbort(rule, cfg, files[..n], files[n..]);
    assert files[..n] + files[n..] == files;
  }

  /** Once a file fails to decode, later files are not examined. */
  lemma {:induction false} ScanStopsAfterAbort(rule: SeparatorRule, cfg: Logging.Config, xs: seq<string>, ys: seq<string>)
    requires Scan(rule, cfg, xs).aborted
    ensures Scan(rule, cfg, xs + ys) == Scan(rule, cfg, xs)
    decreases |ys|
  {
    if ys != [] {
      var init := ys[..|ys| - 1];
      assert (xs + ys)[..|xs + ys| - 1] == xs + init;
      ScanStopsAfterAbort(rule, cfg, xs, init);
      assert Scan(rule, cfg, xs + ys) == Scan(rule, cfg, xs + init);
    } else {
      assert xs + ys == xs;
    }
  }

  predicate FailsToDecode(file: string)
  {
    Uri.Decode(ReplaceFirst(file, FontDirPrefix, "")).Failure?
  }

  /** The index of the first listed file that fails to decode, or the length of the listing. */
  function FirstUndecodable(files: seq<string>): (r: nat)
    ensures r <= |files|
    decreases |files|
  {
    if files == [] then 0
    else if FailsToDecode(files[0]) then 0
    else 1 + FirstUndecodable(files[1..])
  }

  /** Every file before that index decodes, and the file at it does not. */
  lemma {:induction false} FirstUndecodableIsFirst(files: seq<string>)
    ensures forall i | 0 <= i < FirstUndecodable(files) :: !FailsToDecode(files[i])
    ensures FirstUndecodable(files) < |files| ==> FailsToDecode(files[FirstUndecodable(files)])
    decreases |files|
  {
    if files != [] && !FailsToDecode(files[0]) {
      FirstUndecodableIsFirst(files[1..]);
      forall i | 1 <= i < FirstUndecodable(files) ensures !FailsToDecode(files[i]) {
        assert files[i] == files[1..][i - 1];
      }
    }
  }

  /** The entries a listing contributes when every file decodes: accepted files, in listing order. */
  function Accepted(rule: SeparatorRule, files: seq<string>): (r: seq<FontEntry>)
    ensures |r| <= |files|
    decreases |files|
  {
    if files == [] then []
    else Accepted(rule, files[..|files| - 1]) + Appended(Examine(rule, files[|files| - 1]))
  }

  /** Each accepted entry comes from the listing and is what examining its own path yields. */
  lemma {:induction false} AcceptedEntriesMatch(rule: SeparatorRule, files: seq<string>)
    ensures forall e | e in Accepted(rule, files) :: e.path in files && Examine(rule, e.path) == Accept(e)
    decreases |files|
  {
    if files != [] {
      var init, last := files[..|files| - 1], files[|files| - 1];
      AcceptedEntriesMatch(rule, init);
      forall e | e in Accepted(rule, files) ensures e.path in files && Examine(rule, e.path) == Accept(e) {
        if e in Accepted(rule, init) {
          var j :| 0 <= j < |init| && init[j] == e.path;
          assert files[j] == e.path;
        } else {
          assert e in Appended(Examine(rule, last));
        }
      }
    }
  }

  lemma AcceptedAppend(rule: SeparatorRule, xs: seq<string>, x: string)
    ensures Accepted(rule, xs + [x]) == Accepted(rule, xs) + Appended(Examine(rule, x))
  {
    assert (xs + [x])[..|xs|] == xs;
  }

  lemma {:induction false} FirstUndecodableAppend(xs: seq<string>, x: string)
    requires FirstUndecodable(xs) == |xs|
    ensures FirstUndecodable(xs + [x]) == if FailsToDecode(x) then |xs| else |xs| + 1
    decreases |xs|
  {
    if xs == [] {
      assert [x][1..] == [];
    } else {
      FirstUndecodableAppend(xs[1..], x);
      assert (xs + [x])[1..] == xs[1..] + [x];
    }
  }

  lemma {:induction false} FirstUndecodableExtends(xs: seq<string>, ys: seq<string>)
    requires FirstUndecodable(xs) < |xs|
    ensures FirstUndecodable(xs + ys) == FirstUndecodable(xs)
    decreases |xs|
  {
    if !FailsToDecode(xs[0]) {
      FirstUndecodableExtends(xs[1..], ys);
      assert (xs + ys)[1..] == xs[1..] + ys;
    }
  }

  lemma ExamineFailsExactly(rule: SeparatorRule, file: string)
    ensures Examine(rule, file).Undecodable? <==> FailsToDecode(file)
  {
  }

  /** A scan that has not stopped takes one step for one more file. */
  lemma ScanLast(rule: SeparatorRule, cfg: Logging.Config, init: seq<string>, last: string)
    requires !Scan(rule, cfg, init).aborted
    ensures Scan(rule, cfg, init + [last]) == Step(cfg, Scan(rule, cfg, init), Examine(rule, last))
  {
    assert (init + [last])[..|init|] == init;
  }

  /** The characterisation below, for a listing that is one file longer than one that already stopped. */
  lemma ExtendStopped(rule: SeparatorRule, cfg: Logging.Config, init: seq<string>, last: string)
    requires FirstUndecodable(init) < |init| && Scan(rule, cfg, init).aborted
    requires Scan(rule, cfg, init).fonts == Accepted(rule, init[..FirstUndecodable(init)])
    ensures var files := init + [last];
      && Scan(rule, cfg, files).fonts == Accepted(rule, files[..FirstUndecodable(files)])
      && Scan(rule, cfg, files).aborted && FirstUndecodable(files) < |files|
  {
    var files := init + [last];
    var m := FirstUndecodable(init);
    assert files[..|files| - 1] == init;
    FirstUndecodableExtends(init, [last]);
    assert files[..m] == init[..m];
  }

  /** The characterisation below, for a listing that is one file longer than one that decoded throughout. */
  lemma ExtendRunning(rule: SeparatorRule, cfg: Logging.Config, init: seq<string>, last: string)
    requires FirstUndecodable(init) == |init| && !Scan(rule, cfg, init).aborted
    requires Scan(rule, cfg, init).fonts == Accepted(rule, init)
    ensures var files := init + [last];
      && Scan(rule, cfg, files).fonts == Accepted(rule, files[..FirstUndecodable(files)])
      && (Scan(rule, cfg, files).aborted <==> FirstUndecodable(files) < |files|)
  {
    FirstUndecodableAppend(init, last);
    ExamineFailsExactly(rule, last);
    ScanLast(rule, cfg, init, last);
    if FailsToDecode(last) {
      LastFails(rule, cfg, init, last);
    } else {
      LastDecodes(rule, cfg, init, last);
    }
  }

  lemma LastFails(rule: SeparatorRule, cfg: Logging.Config, init: seq<string>, last: string)
    requires FirstUndecodable(init + [last]) == |init|
    requires Scan(rule, cfg, init + [last]).fonts == Scan(rule, cfg, init).fonts
    requires Scan(rule, cfg, init).fonts == Accepted(rule, init)
    ensures Scan(rule, cfg, init + [last]).fonts == Accepted(rule, (init + [last])[..FirstUndecodable(init + [last])])
  {
    assert (init + [last])[..|init|] == init;
  }

  lemma LastDecodes(rule: SeparatorRule, cfg: Logging.Config, init: seq<string>, last: string)
    requires FirstUndecodable(init + [last]) == |init| + 1
    requires !Examine(rule, last).Undecodable?
    requires Scan(rule, cfg, init + [last]).fonts == Scan(rule, cfg, init).fonts + Appended(Examine(rule, last))
    requires Scan(rule, cfg, init).fonts == Accepted(rule, init)
    ensures Scan(rule, cfg, init + [last]).fonts == Accepted(rule, (init + [last])[..FirstUndecodable(init + [last])])
  {
    AcceptedAppend(rule, init, last);
    assert (init + [last])[..|init| + 1] == init + [last];
  }

  /**
   * The scan keeps the accepted files before the first undecodable one, in
   * listing order, and stops exactly when some file fails to decode.
   */
  lemma {:induction false} ScanCharacterization(rule: SeparatorRule, cfg: Logging.Config, files: seq<string>)
    ensures Scan(rule, cfg, files).fonts == Accepted(rule, files[..FirstUndecodable(files)])
    ensures Scan(rule, cfg, files).aborted <==> FirstUndecodable(files) < |files|
    decreases |files|
  {
    if files == [] {
      assert files[..0] == [];
    } else {
      var init, last := files[..|files| - 1], files[|files| - 1];
      assert files == init + [last];
      ScanCharacterization(rule, cfg, init);
      if FirstUndecodable(init) < |init| {
        ExtendStopped(rule, cfg, init, last);
      } else {
        assert init[..|init|] == init;
        ExtendRunning(rule, cfg, init, last);
      }
    }
  }

  /** Every entry the scan appends is what examining its own listed path yields. */
  lemma ScanEntriesMatch(rule: SeparatorRule, cfg: Logging.Config, files: seq<string>)
    ensures forall e | e in Scan(rule, cfg, files).fonts ::
      e.path in files && Examine(rule, e.path) == Accept(e)
  {
    ScanCharacterization(rule, cfg, files);
    var m := FirstUndecodable(files);
    AcceptedEntriesMatch(rule, files[..m]);
    forall e | e in Scan(rule, cfg, files).fonts
      ensures e.path in files
    {
      var j :| 0 <= j < m && files[..m][j] == e.path;
      assert files[j] == e.path;
    }
  }

  // ---------------------------------------------------------------------
  // AVAILABLE_FONTS and the loop that fills it

  class FontRegistry {
    /** AVAILABLE_FONTS: only ever appended to. */
    var fonts: seq<FontEntry>

    constructor ()
      ensures fonts == []
    {
      fonts := [];
    }

    /** The body of the loop for one file: push the entry, or log why the file was skipped. */
    method Record(cfg: Logging.Config, verdict: Verdict, console: seq<Logging.ConsoleLine>)
      returns (after: seq<Logging.ConsoleLine>)
      modifies this
      ensures fonts == old(fonts) + Appended(verdict)
      ensures after == console + Logged(cfg, verdict)
    {
      after := console;
      match verdict {
        case Accept(entry) =>
          fonts := fonts + [entry];
        case Reject(decoded) =>
          after := after + Emit(Logging.LogInfo(cfg, MismatchMessage(decoded)));
        case Undecodable(_) =>
          after := after + Emit(Logging.LogWarning(cfg, FailureMessage));
      }
    }

    /** One iteration over files[i]: the scan so far is extended by that file, or stops on it. */
    method Visit(rule: SeparatorRule, cfg: Logging.Config, files: seq<string>, i: nat,
                 ghost before: seq<FontEntry>, console: seq<Logging.ConsoleLine>)
      returns (after: seq<Logging.ConsoleLine>, stop: bool)
      requires i < |files| && !Scan(rule, cfg, files[..i]).aborted
      requires fonts == before + Scan(rule, cfg, files[..i]).fonts
      requires console == Scan(rule, cfg, files[..i]).console
      modifies this
      ensures stop ==> fonts == before + Scan(rule, cfg, files).fonts && after == Scan(rule, cfg, files).console
      ensures !stop ==> !Scan(rule, cfg, files[..i + 1]).aborted
      ensures !stop ==> fonts == before + Scan(rule, cfg, files[..i + 1]).fonts
      ensures !stop ==> after == Scan(rule, cfg, files[..i + 1]).console
    {
      ScanExtend(rule, cfg, files, i);
      var verdict := Examine(rule, files[i]);
      after := Record(cfg, verdict, console);
      stop := verdict.Undecodable?;
      if stop {
        AbortAt(rule, cfg, files, i);
      }
    }

    /** getAvailableFonts over a given listing (None: the listing call threw). */
    method GetAvailableFonts(rule: SeparatorRule, cfg: Logging.Config, listing: Option<seq<string>>)
      returns (console: seq<Logging.ConsoleLine>)
      modifies this
      ensures fonts == old(fonts) + Outcome(rule, cfg, listing).fonts
      ensures console == Outcome(rule, cfg, listing).console
    {
      match listing {
        case None =>
          console := Emit(Logging.LogWarning(cfg, FailureMessage));
          assert fonts == fonts + [];
        case Some(files) =>
          console := ScanListing(rule, cfg, files);
      }
    }

    /** The for-of loop of getAvailableFonts over the files of the listing. */
    method ScanListing(rule: SeparatorRule, cfg: Logging.Config, files: seq<string>)
      returns (console: seq<Logging.ConsoleLine>)
      modifies this
      ensures fonts == old(fonts) + Scan(rule, cfg, files).fonts
      ensures console == Scan(rule, cfg, files).console
    {
      console := [];
      ghost var before := fonts;
      assert files[..0] == [] && before + [] == before;
      var i := 0;
      while i < |files|
        invariant 0 <= i <= |files| && !Scan(rule, cfg, files[..i]).aborted
        invariant fonts == before + Scan(rule, cfg, files[..i]).fonts
        invariant console == Scan(rule, cfg, files[..i]).console
      {
        var stop;
        console, stop := Visit(rule, cfg, files, i, before, console);
        if stop {
          return;
        }
        i := i + 1;
      }
      assert files[..|files|] == files;
    }
  }

  /** The list is never cleared: a second scan of the same listing appends the same entries again. */
  method ScanTwice(registry: FontRegistry, rule: SeparatorRule, cfg: Logging.Config, listing: Option<seq<string>>)
    modifies registry
    ensures registry.fonts == old(registry.fonts) + Outcome(rule, cfg, listing).fonts + Outcome(rule, cfg, listing).fonts
  {
    var _ := registry.GetAvailableFonts(rule, cfg, listing);
    var _ := registry.GetAvailableFonts(rule, cfg, listing);
  }
}
