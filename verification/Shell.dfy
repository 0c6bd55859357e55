/** POSIX shell quoting against a lexer for section 2.2 of the POSIX.1-2017 Shell
    Command Language. */
module Shell {
  import Text
  import opened Wrappers

  datatype Mode = Between | Word | Single | Double

  predicate Blank(c: char) {
    c == ' ' || c == '\t'
  }

  /** Characters that mean something to the shell when unquoted, besides blanks,
      quotes and the backslash. `=` and `%` matter only in an assignment before the
      command and in a job name, never in an argument. */
  predicate Special(c: char) {
    c in "|&;<>()$`\n*?[#~"
  }

  /** The words of `s`, read on from a mode, with `cur` the word under way. `None`
      where a quote stays open or the shell would do more than split words. */
  function Run(mode: Mode, cur: string, words: seq<string>, s: string): Option<seq<string>>
    decreases |s|, if mode == Between then 1 else 0
  {
    match mode
    case Between =>
      if s == [] then Some(words)
      else if Blank(s[0]) then Run(Between, "", words, s[1..])
      else Run(Word, "", words, s)
    case Word =>
      if s == [] then Some(words + [cur])
      else if Blank(s[0]) then Run(Between, "", words + [cur], s[1..])
      else if s[0] == '\'' then Run(Single, cur, words, s[1..])
      else if s[0] == '\"' then Run(Double, cur, words, s[1..])
      else if s[0] == '\\' then
        if |s| == 1 then None
        else if s[1] == '\n' then Run(Word, cur, words, s[2..])
        else Run(Word, cur + [s[1]], words, s[2..])
      else if Special(s[0]) then None
      else Run(Word, cur + [s[0]], words, s[1..])
    case Single =>
      if s == [] then None
      else if s[0] == '\'' then Run(Word, cur, words, s[1..])
      else Run(Single, cur + [s[0]], words, s[1..])
    case Double =>
      if s == [] || s[0] == '$' || s[0] == '`' then None
      else if s[0] == '\"' then Run(Word, cur, words, s[1..])
      else if s[0] == '\\' && |s| > 1 && s[1] in "$`\"\\\n" then
        Run(Double, if s[1] == '\n' then cur else cur + [s[1]], words, s[2..])
      else Run(Double, cur + [s[0]], words, s[1..])
  }

  function Lex(s: string): Option<seq<string>> {
    Run(Between, "", [], s)
  }

  // ----- the quoting functions -----

  /** `strings.ReplaceAll(s, "'", seam)`. */
  function Seamed(s: string, seam: string): string {
    if s == [] then [] else (if s[0] == '\'' then seam else [s[0]]) + Seamed(s[1..], seam)
  }

  const BACKSLASH_SEAM := "'\\''"
  const DOUBLE_SEAM := "'\"'\"'"

  /** `shellQuote`, and the quoting branch of `shellWord`. */
  function ShellQuote(s: string): string {
    "'" + Seamed(s, BACKSLASH_SEAM) + "'"
  }

  /** `projectionShellQuote` and `staleBaseShellArg`. */
  function ShellArg(s: string): string {
    "'" + Seamed(s, DOUBLE_SEAM) + "'"
  }

  predicate PlainChar(c: char) {
    'A' <= c <= 'Z' || 'a' <= c <= 'z' || '0' <= c <= '9' || c in "_./@%+=:,-"
  }

  function ShellWord(s: string): string {
    if s != [] && forall i | 0 <= i < |s| :: PlainChar(s[i]) then s else ShellQuote(s)
  }

  /** A word of letters, digits and these marks is printed as it is; any other word,
      the empty one included, is quoted. */
  lemma ShellWordIs(s: string)
    ensures ShellWord(s) == s <==>
            s != "" && forall i | 0 <= i < |s| ::
                s[i] in UPPER || s[i] in LOWER || s[i] in DIGITS || s[i] in "_./@%+=:,-"
    ensures ShellWord(s) == s || ShellWord(s) == "'" + Seamed(s, BACKSLASH_SEAM) + "'"
  {
    hide PlainChar;
    forall c { PlainCharIs(c); }
    if ShellWord(s) == ShellQuote(s) == s {
      SeamedIsNoShorter(s, BACKSLASH_SEAM);
    }
  }

  const UPPER := "ABCDEFGHIJKLMNOPQRSTUVWXYZ"
  const LOWER := "abcdefghijklmnopqrstuvwxyz"
  const DIGITS := "0123456789"

  /** A run of consecutive characters holds what lies between its ends. */
  lemma RunHolds(run: string, c: char)
    requires run != "" && forall i | 0 <= i < |run| :: run[i] as int == run[0] as int + i
    ensures c in run <==> run[0] <= c <= run[|run| - 1]
  {
    if run[0] <= c <= run[|run| - 1] { assert run[c as int - run[0] as int] == c; }
  }

  lemma PlainCharIs(c: char)
    ensures PlainChar(c) <==> c in UPPER || c in LOWER || c in DIGITS || c in "_./@%+=:,-"
  {
    RunsAre();
    RunHolds(UPPER, c);
    RunHolds(LOWER, c);
    RunHolds(DIGITS, c);
  }

  lemma RunsAre()
    ensures |UPPER| == 26 && |LOWER| == 26 && |DIGITS| == 10
    ensures UPPER[0] == 'A' && UPPER[25] == 'Z' && LOWER[0] == 'a' && LOWER[25] == 'z' && DIGITS[0] == '0'
            && DIGITS[9] == '9'
    ensures forall i | 0 <= i < 26 :: UPPER[i] as int == 'A' as int + i
    ensures forall i | 0 <= i < 26 :: LOWER[i] as int == 'a' as int + i
    ensures forall i | 0 <= i < 10 :: DIGITS[i] as int == '0' as int + i
  {
  }

  lemma {:induction false} SeamedIsNoShorter(s: string, seam: string)
    requires |seam| >= 1
    ensures |Seamed(s, seam)| >= |s|
  {
    if s != [] { SeamedIsNoShorter(s[1..], seam); }
  }

  function RewriteCommand(command: string): string {
    "mgit run -- bash -lc " + ShellQuote(command)
  }

  // ----- round trips -----

  lemma BackslashSeam(cur: string, words: seq<string>, rest: string)
    ensures Run(Single, cur, words, BACKSLASH_SEAM + rest) == Run(Single, cur + "'", words, rest)
  {
    var s := BACKSLASH_SEAM + rest;
    assert s[1..][2..] == s[3..] && s[3..][1..] == rest;
    assert Run(Single, cur, words, s) == Run(Word, cur, words, s[1..]);
    assert Run(Word, cur, words, s[1..]) == Run(Word, cur + "'", words, s[3..]);
  }

  lemma DoubleSeam(cur: string, words: seq<string>, rest: string)
    ensures Run(Single, cur, words, DOUBLE_SEAM + rest) == Run(Single, cur + "'", words, rest)
  {
    var s := DOUBLE_SEAM + rest;
    assert s[1..][1..] == s[2..] && s[2..][1..] == s[3..] && s[3..][1..] == s[4..] && s[4..][1..] == rest;
    assert Run(Single, cur, words, s) == Run(Word, cur, words, s[1..]);
    assert Run(Word, cur, words, s[1..]) == Run(Double, cur, words, s[2..]);
    assert Run(Double, cur, words, s[2..]) == Run(Double, cur + "'", words, s[3..]);
    assert Run(Double, cur + "'", words, s[3..]) == Run(Word, cur + "'", words, s[4..]);
  }

  lemma OpensQuote(cur: string, words: seq<string>, rest: string)
    ensures Run(Word, cur, words, "'" + rest) == Run(Single, cur, words, rest)
  {
    assert ("'" + rest)[1..] == rest;
  }

  lemma ClosesQuote(cur: string, words: seq<string>, rest: string)
    ensures Run(Single, cur, words, "'" + rest) == Run(Word, cur, words, rest)
  {
    assert ("'" + rest)[1..] == rest;
  }

  lemma InsideQuote(cur: string, words: seq<string>, c: char, rest: string)
    requires c != '\''
    ensures Run(Single, cur, words, [c] + rest) == Run(Single, cur + [c], words, rest)
  {
    assert ([c] + rest)[1..] == rest;
  }

  lemma PlainStep(cur: string, words: seq<string>, c: char, rest: string)
    requires PlainChar(c)
    ensures Run(Word, cur, words, [c] + rest) == Run(Word, cur + [c], words, rest)
  {
    assert ([c] + rest)[1..] == rest;
  }

  lemma {:induction false} QuotedBody(seam: string, cur: string, words: seq<string>, s: string, rest: string)
    requires seam == BACKSLASH_SEAM || seam == DOUBLE_SEAM
    ensures Run(Single, cur, words, Seamed(s, seam) + "'" + rest) == Run(Word, cur + s, words, rest)
    decreases |s|
  {
    hide Run;
    if s == [] {
      assert Seamed(s, seam) + "'" + rest == "'" + rest;
      ClosesQuote(cur, words, rest);
      assert cur + s == cur;
    } else {
      var tail := Seamed(s[1..], seam) + "'" + rest;
      QuotedBody(seam, cur + [s[0]], words, s[1..], rest);
      assert cur + [s[0]] + s[1..] == cur + s;
      if s[0] == '\'' {
        assert Seamed(s, seam) + "'" + rest == seam + tail;
        if seam == BACKSLASH_SEAM { BackslashSeam(cur, words, tail); } else { DoubleSeam(cur, words, tail); }
        assert cur + "'" == cur + [s[0]];
      } else {
        assert Seamed(s, seam) + "'" + rest == [s[0]] + tail;
        InsideQuote(cur, words, s[0], tail);
      }
    }
  }

  lemma {:induction false} PlainBody(cur: string, words: seq<string>, s: string, rest: string)
    requires forall i | 0 <= i < |s| :: PlainChar(s[i])
    ensures Run(Word, cur, words, s + rest) == Run(Word, cur + s, words, rest)
    decreases |s|
  {
    hide Run, PlainChar;
    if s == [] {
      assert s + rest == rest && cur + s == cur;
    } else {
      assert s + rest == [s[0]] + (s[1..] + rest);
      PlainStep(cur, words, s[0], s[1..] + rest);
      PlainBody(cur + [s[0]], words, s[1..], rest);
      assert cur + [s[0]] + s[1..] == cur + s;
    }
  }

  /** Text that reads as the one word `w`, whatever follows it. */
  ghost predicate Spells(text: string, w: string) {
    && text != [] && !Blank(text[0])
    && forall words: seq<string>, rest: string :: Run(Word, "", words, text + rest) == Run(Word, w, words, rest)
  }

  lemma QuoteSpells(seam: string, s: string)
    requires seam == BACKSLASH_SEAM || seam == DOUBLE_SEAM
    ensures Spells("'" + Seamed(s, seam) + "'", s)
  {
    hide Run, Seamed;
    var text := "'" + Seamed(s, seam) + "'";
    forall words: seq<string>, rest: string ensures Run(Word, "", words, text + rest) == Run(Word, s, words, rest) {
      assert text + rest == "'" + (Seamed(s, seam) + "'" + rest);
      OpensQuote("", words, Seamed(s, seam) + "'" + rest);
      QuotedBody(seam, "", words, s, rest);
      assert "" + s == s;
    }
  }

  lemma PlainSpells(s: string)
    requires s != [] && forall i | 0 <= i < |s| :: PlainChar(s[i])
    ensures Spells(s, s)
  {
    hide Run;
    forall words: seq<string>, rest: string ensures Run(Word, "", words, s + rest) == Run(Word, s, words, rest) {
      PlainBody("", words, s, rest);
      assert "" + s == s;
    }
    assert PlainChar(s[0]);
  }

  lemma SpelledLexes(text: string, w: string)
    requires Spells(text, w)
    ensures Lex(text) == Some([w])
  {
    assert text + "" == text;
    assert Run(Word, "", [], text + "") == Run(Word, w, [], "");
    assert Run(Word, w, [], "") == Some([] + [w]);
    assert [] + [w] == [w];
  }

  /** Each quoting function turns any string into text that lexes to one word, that string. */
  lemma QuotingRoundTrips(s: string)
    ensures Lex(ShellQuote(s)) == Some([s])
    ensures Lex(ShellArg(s)) == Some([s])
    ensures Lex(ShellWord(s)) == Some([s])
  {
    WordSpells(s);
    QuoteSpells(BACKSLASH_SEAM, s);
    QuoteSpells(DOUBLE_SEAM, s);
    SpelledLexes(ShellWord(s), s);
    SpelledLexes(ShellQuote(s), s);
    SpelledLexes(ShellArg(s), s);
  }

  lemma WordSpells(s: string)
    ensures Spells(ShellWord(s), s)
  {
    if s != [] && forall i | 0 <= i < |s| :: PlainChar(s[i]) {
      PlainSpells(s);
    } else {
      QuoteSpells(BACKSLASH_SEAM, s);
    }
  }

  ghost predicate AllSpell(texts: seq<string>, words: seq<string>) {
    |texts| == |words| && forall i | 0 <= i < |texts| :: Spells(texts[i], words[i])
  }

  /** Spelled words joined by single blanks lex to exactly those words. */
  lemma {:induction false} JoinedLexes(done: seq<string>, texts: seq<string>, words: seq<string>)
    requires AllSpell(texts, words)
    ensures Run(Between, "", done, Text.Join(texts, " ")) == Some(done + words)
    decreases |texts|
  {
    if texts == [] {
      assert done + words == done;
    } else {
      var text, w := texts[0], words[0];
      assert Spells(text, w);
      if |texts| == 1 {
        assert text + [] == text;
        assert Run(Word, "", done, text + []) == Run(Word, w, done, []);
        assert words == [w];
      } else {
        var more := Text.Join(texts[1..], " ");
        assert Text.Join(texts, " ") == text + (" " + more);
        assert Run(Word, "", done, text + (" " + more)) == Run(Word, w, done, " " + more);
        assert (" " + more)[1..] == more;
        JoinedLexes(done + [w], texts[1..], words[1..]);
        assert done + [w] + words[1..] == done + words;
      }
    }
  }

  /** A rewritten command is the six words `mgit run -- bash -lc` and the command
      itself, untouched. */
  lemma RewrittenCommandLexes(c: string)
    ensures Lex(RewriteCommand(c)) == Some(["mgit", "run", "--", "bash", "-lc", c])
  {
    var texts, words := ["mgit", "run", "--", "bash", "-lc", ShellQuote(c)], ["mgit", "run", "--", "bash", "-lc", c];
    assert RewriteCommand(c) == Text.Join(texts, " ") by { JoinsSix(ShellQuote(c)); }
    PlainSpells("mgit");
    PlainSpells("run");
    PlainSpells("--");
    PlainSpells("bash");
    PlainSpells("-lc");
    QuoteSpells(BACKSLASH_SEAM, c);
    assert AllSpell(texts, words);
    JoinedLexes([], texts, words);
    assert [] + words == words;
  }

  lemma JoinsOnto(w: string, more: seq<string>)
    requires more != []
    ensures Text.Join([w] + more, " ") == w + " " + Text.Join(more, " ")
  {
    assert ([w] + more)[1..] == more;
  }

  lemma JoinsSix(c: string)
    ensures Text.Join(["mgit", "run", "--", "bash", "-lc", c], " ") == "mgit run -- bash -lc " + c
  {
    hide Text.Join;
    assert Text.Join([c], " ") == c by { JoinsOne(c); }
    JoinsOnto("-lc", [c]);
    JoinsOnto("bash", ["-lc", c]);
    JoinsOnto("--", ["bash", "-lc", c]);
    JoinsOnto("run", ["--", "bash", "-lc", c]);
    JoinsOnto("mgit", ["run", "--", "bash", "-lc", c]);
    assert ["mgit"] + ["run", "--", "bash", "-lc", c] == ["mgit", "run", "--", "bash", "-lc", c];
    assert ["run"] + ["--", "bash", "-lc", c] == ["run", "--", "bash", "-lc", c];
    assert ["--"] + ["bash", "-lc", c] == ["--", "bash", "-lc", c];
    assert ["bash"] + ["-lc", c] == ["bash", "-lc", c];
    assert ["-lc"] + [c] == ["-lc", c];
  }

  lemma JoinsOne(c: string)
    ensures Text.Join([c], " ") == c
  {
  }

  /** `mkdirFix`, given the joined directory paths: pasted into a shell it is
      `mkdir -p` with exactly those directories. */
  method MkdirFix(dirs: seq<string>) returns (line: string)
    ensures Lex(line) == Some(["mkdir", "-p"] + dirs)
  {
    var words := ["mkdir", "-p"];
    PlainSpells("mkdir");
    PlainSpells("-p");
    for i := 0 to |dirs|
      invariant AllSpell(words, ["mkdir", "-p"] + dirs[..i])
    {
      WordSpells(dirs[i]);
      assert dirs[..i + 1] == dirs[..i] + [dirs[i]];
      words := words + [ShellWord(dirs[i])];
    }
    assert dirs[..|dirs|] == dirs;
    line := Text.Join(words, " ");
    JoinedLexes([], words, ["mkdir", "-p"] + dirs);
    assert [] + (["mkdir", "-p"] + dirs) == ["mkdir", "-p"] + dirs;
  }
}
