/** The generated block between two markers in a file the user owns. */
module MarkedBlock {
  import opened Text

  /** `replaceMarked`: the block is replaced in place, or the section is appended
      after a blank line when no block is found. */
  function ReplaceMarked(body: string, begin: string, end: string, section: string): string {
    var start := Index(body, begin);
    var stop := Index(body, end);
    if start >= 0 && stop > start then body[..start] + section + body[stop + |end|..]
    else if TrimSpace(body) == "" then section + "\n"
    else TrimNewlines(body) + "\n\n" + section + "\n"
  }

  /** Markers a line comment can hold: no newline, no blank at the edge, and the
      end marker no longer than the begin marker. */
  predicate GoodMarkers(begin: string, end: string) {
    && 0 < |end| <= |begin| && '\n' !in begin && '\n' !in end
    && !IsSpace(begin[0]) && !IsSpace(end[0])
  }

  /** A section opens with the begin marker, closes with the end marker, and has
      them nowhere else. */
  ghost predicate IsSection(begin: string, end: string, s: string) {
    && |begin| + |end| <= |s|
    && begin <= s && s[|s| - |end|..] == end
    && (forall i :: OccursAt(s, begin, i) ==> i == 0)
    && (forall i :: OccursAt(s, end, i) ==> i == |s| - |end|)
  }

  /** The user's text has no marker at all, or its first end marker comes after
      its first begin marker. */
  predicate WellMarked(body: string, begin: string, end: string) {
    var start, stop := Index(body, begin), Index(body, end);
    (start == -1 && stop == -1) || (0 <= start < stop)
  }

  // ----- occurrences in a concatenation -----

  lemma OccursInLeft(a: string, b: string, m: string, i: int)
    requires i + |m| <= |a|
    ensures OccursAt(a + b, m, i) <==> OccursAt(a, m, i)
  {
    if 0 <= i {
      assert (a + b)[i..i + |m|] == a[i..i + |m|];
    }
  }

  lemma OccursInRight(a: string, b: string, m: string, i: int)
    requires |a| <= i
    ensures OccursAt(a + b, m, i) <==> OccursAt(b, m, i - |a|)
  {
    if i + |m| <= |a + b| {
      assert (a + b)[i..i + |m|] == b[i - |a|..i - |a| + |m|];
    }
  }

  /** Two texts that share their first `n` characters share the occurrences there. */
  lemma OccursInCommonPrefix(s: string, t: string, m: string, i: int, n: int)
    requires 0 <= i && i + |m| <= n <= |s| && n <= |t| && s[..n] == t[..n]
    ensures OccursAt(s, m, i) <==> OccursAt(t, m, i)
  {
    assert s == s[..n] + s[n..] && t == t[..n] + t[n..];
    OccursInLeft(s[..n], s[n..], m, i);
    OccursInLeft(t[..n], t[n..], m, i);
  }

  /** A marker without a newline does not cross or touch one. */
  lemma NoNewlineInside(s: string, m: string, i: int, k: int)
    requires OccursAt(s, m, i) && '\n' !in m && 0 <= k < |s| && s[k] == '\n'
    ensures k < i || i + |m| <= k
  {
    assert forall j | i <= j < i + |m| :: s[j] == m[j - i] by {
      assert forall j | i <= j < i + |m| :: s[j] == s[i..i + |m|][j - i];
    }
  }

  // ----- where the block is after an upsert -----

  /** What is before the block, once it is there. */
  ghost predicate BlockAt(s: string, begin: string, end: string, pre: string, section: string, post: string) {
    && s == pre + section + post
    && Index(s, begin) == |pre|
    && Index(s, end) == |pre| + |section| - |end|
  }

  lemma ReplacesTheBlock(s: string, begin: string, end: string, pre: string, section: string, post: string,
                         next: string)
    requires GoodMarkers(begin, end) && IsSection(begin, end, section) && BlockAt(s, begin, end, pre, section, post)
    ensures ReplaceMarked(s, begin, end, next) == pre + next + post
  {
    assert s[..|pre|] == pre;
    assert s[|pre| + |section|..] == post;
  }

  /** The section stands where the text before it holds no marker that reaches
      into it. */
  lemma FindsSection(begin: string, end: string, pre: string, section: string, post: string)
    requires GoodMarkers(begin, end) && IsSection(begin, end, section)
    requires forall i | 0 <= i < |pre| :: !OccursAt(pre + begin, begin, i) && !OccursAt(pre + begin, end, i)
    ensures BlockAt(pre + section + post, begin, end, pre, section, post)
  {
    var s := pre + section + post;
    assert s == pre + (section + post);
    var n := |pre| + |begin|;
    assert s[..n] == pre + begin == (pre + begin)[..n] by { assert section[..|begin|] == begin; }
    forall i | 0 <= i < |pre| ensures !OccursAt(s, begin, i) && !OccursAt(s, end, i) {
      OccursInCommonPrefix(s, pre + begin, begin, i, n);
      OccursInCommonPrefix(s, pre + begin, end, i, n);
    }
    assert OccursAt(s, begin, |pre|) by { assert s[|pre|..n] == begin; }
    IndexIsFirst(s, begin, |pre|);
    var e := |pre| + |section| - |end|;
    assert OccursAt(s, end, e) by { assert s[e..e + |end|] == section[|section| - |end|..]; }
    forall i | 0 <= i < e ensures !OccursAt(s, end, i) {
      if |pre| <= i {
        OccursInRight(pre, section + post, end, i);
        OccursInLeft(section, post, end, i - |pre|);
      }
    }
    IndexIsFirst(s, end, e);
  }

  lemma {:induction false} BlankIsAllSpace(s: string, k: nat)
    requires TrimSpace(s) == "" && k < |s|
    ensures IsSpace(s[k])
  {
    if !IsSpace(s[0]) {
      KeepsInk(s);
    } else if k > 0 {
      BlankIsAllSpace(s[1..], k - 1);
    }
  }

  lemma {:induction false} KeepsInk(s: string)
    requires s != [] && !IsSpace(s[0])
    ensures TrimRightSpace(s) != ""
    decreases |s|
  {
    if IsSpace(s[|s| - 1]) {
      KeepsInk(s[..|s| - 1]);
    }
  }

  /** What comes before an appended section. */
  function Lead(body: string): string {
    if TrimSpace(body) == "" then "" else TrimNewlines(body) + "\n\n"
  }

  lemma Appends(body: string, begin: string, end: string, section: string)
    requires !(0 <= Index(body, begin) < Index(body, end))
    ensures ReplaceMarked(body, begin, end, section) == Lead(body) + section + "\n"
  {
  }

  /** A marker of the body lies in the part that is kept. */
  lemma MarkerIsKept(body: string, m: string, i: int)
    requires OccursAt(body, m, i) && m != "" && '\n' !in m && !IsSpace(m[0])
    ensures Lead(body) == TrimNewlines(body) + "\n\n" && i + |m| <= |TrimNewlines(body)|
  {
    assert body[i] == body[i..i + |m|][0] == m[0];
    if TrimSpace(body) == "" {
      BlankIsAllSpace(body, i);
    }
    var t := TrimNewlines(body);
    var last := i + |m| - 1;
    assert body[last] == body[i..i + |m|][|m| - 1] == m[|m| - 1];
  }

  /** A marker found in the lead with a section after it is one the body has. */
  lemma LeadAddsNoMarker(body: string, m: string, tail: string, i: int)
    requires m != "" && '\n' !in m
    requires 0 <= i < |Lead(body)| && OccursAt(Lead(body) + tail, m, i)
    ensures OccursAt(body, m, i)
  {
    var t := TrimNewlines(body);
    var s := Lead(body) + tail;
    assert s[|t|] == '\n' && s[|t| + 1] == '\n';
    NoNewlineInside(s, m, i, |t|);
    NoNewlineInside(s, m, i, |t| + 1);
    assert s[..|t|] == t == body[..|t|];
    OccursInCommonPrefix(s, body, m, i, |t|);
  }

  lemma SectionAfterLead(body: string, begin: string, end: string, section: string)
    requires GoodMarkers(begin, end) && IsSection(begin, end, section)
    requires Index(body, begin) == -1 && Index(body, end) == -1
    ensures BlockAt(Lead(body) + section + "\n", begin, end, Lead(body), section, "\n")
  {
    var pre := Lead(body);
    forall i | 0 <= i < |pre| ensures !OccursAt(pre + begin, begin, i) && !OccursAt(pre + begin, end, i) {
      if OccursAt(pre + begin, begin, i) { LeadAddsNoMarker(body, begin, begin, i); }
      if OccursAt(pre + begin, end, i) { LeadAddsNoMarker(body, end, begin, i); }
    }
    FindsSection(begin, end, pre, section, "\n");
  }

  lemma SectionInPlace(body: string, begin: string, end: string, section: string)
    requires GoodMarkers(begin, end) && IsSection(begin, end, section)
    requires 0 <= Index(body, begin) < Index(body, end)
    ensures var start, stop := Index(body, begin), Index(body, end) + |end|;
            BlockAt(body[..start] + section + body[stop..], begin, end, body[..start], section, body[stop..])
  {
    var start := Index(body, begin);
    var pre := body[..start];
    var n := start + |begin|;
    assert pre + begin == body[..n] by { assert body[start..n] == begin; }
    forall i | 0 <= i < |pre| ensures !OccursAt(pre + begin, begin, i) && !OccursAt(pre + begin, end, i) {
      OccursInCommonPrefix(pre + begin, body, begin, i, n);
      OccursInCommonPrefix(pre + begin, body, end, i, n);
    }
    FindsSection(begin, end, pre, section, body[Index(body, end) + |end|..]);
  }

  /** A second upsert of a well-marked file replaces exactly the first one's block. */
  lemma SecondUpsertReplaces(body: string, begin: string, end: string, first: string, second: string)
    requires GoodMarkers(begin, end) && IsSection(begin, end, first) && WellMarked(body, begin, end)
    ensures ReplaceMarked(ReplaceMarked(body, begin, end, first), begin, end, second) ==
            ReplaceMarked(body, begin, end, second)
  {
    hide IsSection, GoodMarkers, TrimSpace, BlockAt;
    if Index(body, begin) == -1 {
      Appends(body, begin, end, first);
      Appends(body, begin, end, second);
      SectionAfterLead(body, begin, end, first);
      ReplacesTheBlock(Lead(body) + first + "\n", begin, end, Lead(body), first, "\n", second);
    } else {
      var start, stop := Index(body, begin), Index(body, end) + |end|;
      SectionInPlace(body, begin, end, first);
      ReplacesTheBlock(body[..start] + first + body[stop..], begin, end, body[..start], first, body[stop..], second);
    }
  }

  lemma FirstMarkerStays(body: string, m: string, tail: string)
    requires m != "" && '\n' !in m && !IsSpace(m[0]) && Index(body, m) >= 0
    ensures Index(Lead(body) + tail, m) == Index(body, m) && Index(body, m) + |m| + 2 <= |Lead(body)|
  {
    var i := Index(body, m);
    MarkerIsKept(body, m, i);
    var t := TrimNewlines(body);
    var s := Lead(body) + tail;
    assert s[..|t|] == t == body[..|t|];
    OccursInCommonPrefix(s, body, m, i, |t|);
    forall j | 0 <= j < i ensures !OccursAt(s, m, j) {
      if OccursAt(s, m, j) { LeadAddsNoMarker(body, m, tail, j); }
    }
    IndexIsFirst(s, m, i);
  }

  lemma ReplacesInPlace(s: string, begin: string, end: string, section: string)
    requires 0 <= Index(s, begin) < Index(s, end)
    ensures ReplaceMarked(s, begin, end, section) == s[..Index(s, begin)] + section + s[Index(s, end) + |end|..]
  {
  }

  lemma EndOfAppended(body: string, begin: string, end: string, first: string)
    requires GoodMarkers(begin, end) && IsSection(begin, end, first) && Index(body, end) == -1
    ensures Index(Lead(body) + (first + "\n"), end) == |Lead(body)| + |first| - |end|
  {
    hide Lead, IsSpace;
    var lead := Lead(body);
    var u := lead + (first + "\n");
    var e := |lead| + |first| - |end|;
    assert OccursAt(u, end, e) by { assert u[e..e + |end|] == first[|first| - |end|..]; }
    forall i | 0 <= i < e ensures !OccursAt(u, end, i) {
      if i < |lead| {
        if OccursAt(u, end, i) { LeadAddsNoMarker(body, end, first + "\n", i); }
      } else {
        OccursInRight(lead, first + "\n", end, i);
        OccursInLeft(first, "\n", end, i - |lead|);
      }
    }
    IndexIsFirst(u, end, e);
  }

  /** A body with a begin marker and no end marker: the second upsert eats the
      user's text between that marker and the appended block. */
  lemma DanglingBeginLosesText(body: string, begin: string, end: string, first: string, second: string)
    requires GoodMarkers(begin, end) && IsSection(begin, end, first)
    requires Index(body, begin) >= 0 && Index(body, end) == -1
    ensures ReplaceMarked(ReplaceMarked(body, begin, end, first), begin, end, second) ==
            body[..Index(body, begin)] + second + "\n"
    ensures |ReplaceMarked(ReplaceMarked(body, begin, end, first), begin, end, second)| <
            |ReplaceMarked(body, begin, end, second)|
  {
    hide ReplaceMarked, OccursAt, Index, Lead, IsSpace;
    Appends(body, begin, end, first);
    Appends(body, begin, end, second);
    var start, lead := Index(body, begin), Lead(body);
    var u := lead + (first + "\n");
    assert u == lead + first + "\n";
    FirstMarkerStays(body, begin, first + "\n");
    MarkerIsKept(body, begin, start);
    EndOfAppended(body, begin, end, first);
    ReplacesInPlace(u, begin, end, second);
    assert u[..start] == lead[..start] == TrimNewlines(body)[..start] == body[..start];
    assert u[|lead| + |first|..] == "\n";
  }

  /** A body whose first end marker is not after a begin marker: every upsert
      appends one more block. */
  lemma EarlyEndGrows(body: string, begin: string, end: string, first: string, second: string)
    requires GoodMarkers(begin, end) && IsSection(begin, end, first)
    requires Index(body, end) >= 0 && !(0 <= Index(body, begin) < Index(body, end))
    ensures |ReplaceMarked(ReplaceMarked(body, begin, end, first), begin, end, second)| >
            |ReplaceMarked(body, begin, end, second)|
  {
    hide ReplaceMarked, Index, Lead, IsSpace;
    Appends(body, begin, end, first);
    Appends(body, begin, end, second);
    var lead := Lead(body);
    var u := lead + (first + "\n");
    assert u == lead + first + "\n";
    FirstMarkerStays(body, end, first + "\n");
    if Index(body, begin) >= 0 {
      FirstMarkerStays(body, begin, first + "\n");
    } else {
      var k := Index(u, begin);
      if 0 <= k < |lead| { LeadAddsNoMarker(body, begin, first + "\n", k); }
    }
    Appends(u, begin, end, second);
    var e := |lead| + |first| - |end|;
    assert OccursAt(u, end, e) by { assert u[e..e + |end|] == first[|first| - |end|..]; }
    MarkerIsKept(u, end, e);
  }

  /** Exactly when a second upsert replaces the first one's block and nothing else. */
  lemma UpsertIsIdempotentIffWellMarked(body: string, begin: string, end: string, first: string, second: string)
    requires GoodMarkers(begin, end) && IsSection(begin, end, first)
    ensures ReplaceMarked(ReplaceMarked(body, begin, end, first), begin, end, second) ==
            ReplaceMarked(body, begin, end, second)
            <==> WellMarked(body, begin, end)
  {
    hide ReplaceMarked, IsSection, GoodMarkers;
    if WellMarked(body, begin, end) {
      SecondUpsertReplaces(body, begin, end, first, second);
    } else if Index(body, end) == -1 {
      DanglingBeginLosesText(body, begin, end, first, second);
    } else {
      EarlyEndGrows(body, begin, end, first, second);
    }
  }

  // Put together from short literals, which the verifier reasons about more easily.
  const NOTE := "(generated; " + "do not edit)"
  const CLAUDE_BEGIN := "<!-- BEGIN " + "mgit-sandbox " + NOTE + " -->"
  const CLAUDE_END := "<!-- END " + "mgit-sandbox" + " -->"
  const ENVRC_BEGIN := "# BEGIN " + "mgit-sandbox " + NOTE
  const ENVRC_END := "# END " + "mgit-sandbox"

  /** Both pairs of markers in use are good ones. */
  lemma MarkersInUseAreGood()
    ensures GoodMarkers(CLAUDE_BEGIN, CLAUDE_END) && GoodMarkers(ENVRC_BEGIN, ENVRC_END)
  {
    assert CLAUDE_BEGIN[0] == '<' && CLAUDE_END[0] == '<' && ENVRC_BEGIN[0] == '#' && ENVRC_END[0] == '#';
    assert '\n' !in NOTE;
  }
}
