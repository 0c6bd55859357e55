/** Merging mgit's hook into the settings documents of the coding harnesses. */
module Settings {

  datatype Json =
    | Null
    | Bool(b: bool)
    | Num(token: string)
    | Str(s: string)
    | Arr(items: seq<Json>)
    | Obj(fields: Fields)

  type Fields = map<string, Json>

  const ALLOW_RULE := "Bash(mgit run:*)"

  // ----- reading nodes -----

  /** The node as an object, or an empty one when it is absent or of another type. */
  function Child(doc: Fields, key: string): Fields {
    if key in doc && doc[key].Obj? then doc[key].fields else map[]
  }

  /** The node as a list, or an empty one. */
  function Items(doc: Fields, key: string): seq<Json> {
    if key in doc && doc[key].Arr? then doc[key].items else []
  }

  function CommandOf(entry: Json): string {
    if entry.Obj? && "command" in entry.fields && entry.fields["command"].Str? then entry.fields["command"].s else ""
  }

  /** A Claude or Codex entry runs the command in one of its inner hooks. */
  predicate EntryInvokes(entry: Json, command: string) {
    entry.Obj? && exists h | h in Items(entry.fields, "hooks") :: h.Obj? && CommandOf(h) == command
  }

  predicate CursorInvokes(entry: Json, command: string) {
    entry.Obj? && CommandOf(entry) == command
  }

  predicate IsRule(item: Json, rule: string) {
    (if item.Str? then item.s else "") == rule
  }

  // ----- the entries mgit adds -----

  function ClaudeEntry(command: string): Json {
    Obj(map["matcher" := Str("Bash"), "hooks" := Arr([Obj(map["type" := Str("command"), "command" := Str(command)])])])
  }

  function CodexEntry(command: string): Json {
    Obj(map["matcher" := Str("^Bash$"),
            "hooks" := Arr([Obj(map["type" := Str("command"), "command" := Str(command),
                                    "statusMessage" := Str("Routing into the mgit sandbox")])])])
  }

  function CursorEntry(command: string): Json {
    Obj(map["command" := Str(command)])
  }

  // ----- merging one item into a nested list -----

  /** `doc` with `item` appended to the list `doc[node][list]`, unless something
      there already counts as it. Nodes of the wrong type are replaced. */
  function Ensured(doc: Fields, node: string, list: string, counts: Json -> bool, item: Json): Fields {
    var child := Child(doc, node);
    var items := Items(child, list);
    if exists x | x in items :: counts(x) then doc[node := Obj(child)]
    else doc[node := Obj(child[list := Arr(items + [item])])]
  }

  function Claude(doc: Fields, command: string): Fields {
    Ensured(Ensured(doc, "hooks", "PreToolUse", e => EntryInvokes(e, command), ClaudeEntry(command)),
            "permissions", "allow", a => IsRule(a, ALLOW_RULE), Str(ALLOW_RULE))
  }

  function Codex(doc: Fields, command: string): Fields {
    Ensured(doc, "hooks", "PreToolUse", e => EntryInvokes(e, command), CodexEntry(command))
  }

  function Cursor(doc: Fields, command: string): Fields {
    Ensured(doc["version" := Num("1")], "hooks", "beforeShellExecution", e => CursorInvokes(e, command),
      CursorEntry(command))
  }

  /** The decoded document, changed in place. */
  class Document {
    var fields: Fields

    /** The scan for an entry that counts, then the append. */
    method EnsureItem(node: string, list: string, counts: Json -> bool, item: Json)
      modifies this
      ensures fields == Ensured(old(fields), node, list, counts, item)
    {
      var child := Child(fields, node);
      fields := fields[node := Obj(child)];
      var items := Items(child, list);
      for i := 0 to |items|
        invariant forall x | x in items[..i] :: !counts(x)
        invariant fields == old(fields)[node := Obj(child)]
      {
        if counts(items[i]) {
          return;
        }
      }
      assert items[..|items|] == items;
      fields := fields[node := Obj(child[list := Arr(items + [item])])];
    }

    method MergeClaudeSettings(command: string)
      modifies this
      ensures fields == Claude(old(fields), command)
    {
      EnsureItem("hooks", "PreToolUse", e => EntryInvokes(e, command), ClaudeEntry(command));
      EnsureItem("permissions", "allow", a => IsRule(a, ALLOW_RULE), Str(ALLOW_RULE));
    }

    method MergeCodexHooks(command: string)
      modifies this
      ensures fields == Codex(old(fields), command)
    {
      EnsureItem("hooks", "PreToolUse", e => EntryInvokes(e, command), CodexEntry(command));
    }

    method MergeCursorHooks(command: string)
      modifies this
      ensures fields == Cursor(old(fields), command)
    {
      fields := fields["version" := Num("1")];
      EnsureItem("hooks", "beforeShellExecution", e => CursorInvokes(e, command), CursorEntry(command));
    }
  }

  // ----- what a merge keeps -----

  /** `b` holds everything `a` does: objects may gain keys, lists may gain items
      at the end, nothing else may differ. */
  ghost predicate Grows(a: Json, b: Json) {
    || a == b
    || (a.Arr? && b.Arr? && a.items <= b.items)
    || (a.Obj? && b.Obj? && forall k | k in a.fields :: k in b.fields && Grows(a.fields[k], b.fields[k]))
  }

  /** The nodes a merge touches are absent or of the type it expects. */
  predicate Fits(doc: Fields, node: string, list: string) {
    node in doc ==> doc[node].Obj? && (list in doc[node].fields ==> doc[node].fields[list].Arr?)
  }

  ghost predicate Present(doc: Fields, node: string, list: string, counts: Json -> bool) {
    exists x | x in Items(Child(doc, node), list) :: counts(x)
  }

  lemma EnsuredIsPresent(doc: Fields, node: string, list: string, counts: Json -> bool, item: Json)
    requires counts(item)
    ensures Present(Ensured(doc, node, list, counts, item), node, list, counts)
  {
    var items := Items(Child(doc, node), list);
    if !exists x | x in items :: counts(x) {
      assert item in items + [item];
    }
  }

  lemma EnsuredTwice(doc: Fields, node: string, list: string, counts: Json -> bool, item: Json)
    requires Present(doc, node, list, counts)
    ensures Ensured(doc, node, list, counts, item) == doc
  {
    assert doc[node := Obj(Child(doc, node))] == doc;
  }

  lemma EnsuredLeavesOthers(doc: Fields, node: string, list: string, counts: Json -> bool, item: Json, key: string)
    requires key != node
    ensures key in Ensured(doc, node, list, counts, item) <==> key in doc
    ensures key in doc ==> Ensured(doc, node, list, counts, item)[key] == doc[key]
  {
  }

  /** Nothing in the document is lost exactly when the touched nodes fit. */
  lemma EnsuredGrowsIffFits(doc: Fields, node: string, list: string, counts: Json -> bool, item: Json)
    ensures Grows(Obj(doc), Obj(Ensured(doc, node, list, counts, item))) <==> Fits(doc, node, list)
  {
    var out := Ensured(doc, node, list, counts, item);
    if node in doc {
      var child, items := Child(doc, node), Items(Child(doc, node), list);
      if doc[node].Obj? && list in child && child[list].Arr? {
        assert Grows(child[list], Arr(items + [item]));
      }
      assert Fits(doc, node, list) <==> Grows(doc[node], out[node]) by {
        assert !doc[node].Obj? ==> !Grows(doc[node], out[node]);
      }
    }
  }

  lemma EntriesCount(command: string)
    ensures EntryInvokes(ClaudeEntry(command), command) && EntryInvokes(CodexEntry(command), command)
    ensures CursorInvokes(CursorEntry(command), command) && IsRule(Str(ALLOW_RULE), ALLOW_RULE)
  {
    var claude := Obj(map["type" := Str("command"), "command" := Str(command)]);
    assert claude in Items(ClaudeEntry(command).fields, "hooks");
    var codex := Obj(map["type" := Str("command"), "command" := Str(command),
        "statusMessage" := Str("Routing into the mgit sandbox")]);
    assert codex in Items(CodexEntry(command).fields, "hooks");
  }

  lemma OthersStayPresent(doc: Fields, node: string, list: string, counts: Json -> bool, item: Json,
                          node': string, list': string, counts': Json -> bool)
    requires node != node' && Present(doc, node', list', counts')
    ensures Present(Ensured(doc, node, list, counts, item), node', list', counts')
  {
    EnsuredLeavesOthers(doc, node, list, counts, item, node');
  }

  /** Afterwards the harness runs the command, and nothing is added twice: merging
      again leaves every document as it is. */
  lemma ClaudeMergesOnce(doc: Fields, command: string)
    ensures Present(Claude(doc, command), "hooks", "PreToolUse", e => EntryInvokes(e, command))
    ensures Present(Claude(doc, command), "permissions", "allow", a => IsRule(a, ALLOW_RULE))
    ensures Claude(Claude(doc, command), command) == Claude(doc, command)
  {
    hide Ensured, Present;
    EntriesCount(command);
    var invokes, isRule := (e: Json) => EntryInvokes(e, command), (a: Json) => IsRule(a, ALLOW_RULE);
    var mid := Ensured(doc, "hooks", "PreToolUse", invokes, ClaudeEntry(command));
    var out := Ensured(mid, "permissions", "allow", isRule, Str(ALLOW_RULE));
    EnsuredIsPresent(doc, "hooks", "PreToolUse", invokes, ClaudeEntry(command));
    EnsuredIsPresent(mid, "permissions", "allow", isRule, Str(ALLOW_RULE));
    OthersStayPresent(mid, "permissions", "allow", isRule, Str(ALLOW_RULE), "hooks", "PreToolUse", invokes);
    EnsuredTwice(out, "hooks", "PreToolUse", invokes, ClaudeEntry(command));
    EnsuredTwice(out, "permissions", "allow", isRule, Str(ALLOW_RULE));
  }

  lemma CodexMergesOnce(doc: Fields, command: string)
    ensures Present(Codex(doc, command), "hooks", "PreToolUse", e => EntryInvokes(e, command))
    ensures Codex(Codex(doc, command), command) == Codex(doc, command)
  {
    hide Ensured, Present;
    EntriesCount(command);
    var invokes := (e: Json) => EntryInvokes(e, command);
    EnsuredIsPresent(doc, "hooks", "PreToolUse", invokes, CodexEntry(command));
    EnsuredTwice(Codex(doc, command), "hooks", "PreToolUse", invokes, CodexEntry(command));
  }

  lemma CursorMergesOnce(doc: Fields, command: string)
    ensures Present(Cursor(doc, command), "hooks", "beforeShellExecution", e => CursorInvokes(e, command))
    ensures "version" in Cursor(doc, command) && Cursor(doc, command)["version"] == Num("1")
    ensures Cursor(Cursor(doc, command), command) == Cursor(doc, command)
  {
    hide Ensured, Present;
    EntriesCount(command);
    var invokes := (e: Json) => CursorInvokes(e, command);
    var stamped := doc["version" := Num("1")];
    EnsuredIsPresent(stamped, "hooks", "beforeShellExecution", invokes, CursorEntry(command));
    EnsuredLeavesOthers(stamped, "hooks", "beforeShellExecution", invokes, CursorEntry(command), "version");
    assert Cursor(doc, command)["version" := Num("1")] == Cursor(doc, command);
    EnsuredTwice(Cursor(doc, command), "hooks", "beforeShellExecution", invokes, CursorEntry(command));
  }

  // ----- what a merge adds, in the document itself -----

  /** The object's command is this one; none at all counts as the empty one. */
  ghost predicate Commands(h: Json, command: string) {
    && h.Obj?
    && if "command" in h.fields && h.fields["command"].Str? then h.fields["command"] == Str(command) else command == ""
  }

  /** The item is an object that runs the command in one of its inner hooks. */
  ghost predicate Runs(item: Json, command: string) {
    && item.Obj? && "hooks" in item.fields && item.fields["hooks"].Arr?
    && exists h | h in item.fields["hooks"].items :: Commands(h, command)
  }

  /** The list at `doc[node][list]`, where both nodes are what they should be. */
  ghost predicate ListAt(doc: Fields, node: string, list: string, items: seq<Json>) {
    && node in doc && doc[node].Obj? && list in doc[node].fields
    && doc[node].fields[list] == Arr(items)
  }

  /** What was there before: the items of the list, or none. */
  ghost predicate WasAt(doc: Fields, node: string, list: string, items: seq<Json>) {
    ListAt(doc, node, list, items) || ((forall other :: !ListAt(doc, node, list, other)) && items == [])
  }

  lemma ItemsWere(doc: Fields, node: string, list: string, items: seq<Json>)
    ensures WasAt(doc, node, list, items) <==> items == Items(Child(doc, node), list)
  {
    var found := Items(Child(doc, node), list);
    if node in doc && doc[node].Obj? && list in doc[node].fields && doc[node].fields[list].Arr? {
      assert ListAt(doc, node, list, found);
    }
  }

  lemma EnsuredAdds(doc: Fields, node: string, list: string, counts: Json -> bool, item: Json, items: seq<Json>)
    requires WasAt(doc, node, list, items)
    ensures var out := Ensured(doc, node, list, counts, item);
            if exists x | x in items :: counts(x) then ListAt(out, node, list, items)
            else ListAt(out, node, list, items + [item])
  {
    ItemsWere(doc, node, list, items);
  }

  lemma InvokesIsRuns(item: Json, command: string)
    ensures EntryInvokes(item, command) <==> Runs(item, command)
  {
  }

  /** A Claude merge adds one Bash entry that runs the command after the user's own,
      unless one of them runs it already, and the rule likewise. */
  lemma ClaudeAdds(doc: Fields, command: string, hooks: seq<Json>, rules: seq<Json>)
    requires WasAt(doc, "hooks", "PreToolUse", hooks) && WasAt(doc, "permissions", "allow", rules)
    ensures var out := Claude(doc, command);
            && (if exists x | x in hooks :: Runs(x, command) then ListAt(out, "hooks", "PreToolUse", hooks)
                else ListAt(out, "hooks", "PreToolUse", hooks +
                       [Obj(map["matcher" := Str("Bash"),
                                "hooks" := Arr([Obj(map["type" := Str("command"), "command" := Str(command)])])])]))
            && (if Str("Bash(mgit run:*)") in rules then ListAt(out, "permissions", "allow", rules)
                else ListAt(out, "permissions", "allow", rules + [Str("Bash(mgit run:*)")]))
  {
    hide Ensured, WasAt, Runs, EntryInvokes;
    var invokes, isRule := (e: Json) => EntryInvokes(e, command), (a: Json) => IsRule(a, ALLOW_RULE);
    var mid := Ensured(doc, "hooks", "PreToolUse", invokes, ClaudeEntry(command));
    EnsuredAdds(doc, "hooks", "PreToolUse", invokes, ClaudeEntry(command), hooks);
    EnsuredLeavesOthers(doc, "hooks", "PreToolUse", invokes, ClaudeEntry(command), "permissions");
    WasAtElsewhere(doc, mid, "permissions", "allow", rules);
    EnsuredAdds(mid, "permissions", "allow", isRule, Str(ALLOW_RULE), rules);
    EnsuredLeavesOthers(mid, "permissions", "allow", isRule, Str(ALLOW_RULE), "hooks");
    forall x { InvokesIsRuns(x, command); }
    forall x { RuleIs(x); }
  }

  lemma RuleIs(item: Json)
    ensures IsRule(item, ALLOW_RULE) <==> item == Str("Bash(mgit run:*)")
  {
    assert ALLOW_RULE[0] == 'B';
  }

  lemma WasAtElsewhere(doc: Fields, out: Fields, node: string, list: string, items: seq<Json>)
    requires WasAt(doc, node, list, items) && (node in out <==> node in doc) && (node in doc ==> out[node] == doc[node])
    ensures WasAt(out, node, list, items)
  {
    ItemsWere(doc, node, list, items);
    ItemsWere(out, node, list, items);
  }

  /** The same for Codex, whose entry carries a status message. */
  lemma CodexAdds(doc: Fields, command: string, hooks: seq<Json>)
    requires WasAt(doc, "hooks", "PreToolUse", hooks)
    ensures var out := Codex(doc, command);
            if exists x | x in hooks :: Runs(x, command) then ListAt(out, "hooks", "PreToolUse", hooks)
            else ListAt(out, "hooks", "PreToolUse", hooks +
                   [Obj(map["matcher" := Str("^Bash$"),
                            "hooks" := Arr([Obj(map["type" := Str("command"), "command" := Str(command),
                                                    "statusMessage" := Str("Routing into the mgit sandbox")])])])])
  {
    hide Ensured, WasAt, Runs, EntryInvokes;
    EnsuredAdds(doc, "hooks", "PreToolUse", e => EntryInvokes(e, command), CodexEntry(command), hooks);
    forall x { InvokesIsRuns(x, command); }
  }

  /** The same for Cursor, whose entries hold the command themselves. */
  lemma CursorAdds(doc: Fields, command: string, hooks: seq<Json>)
    requires WasAt(doc, "hooks", "beforeShellExecution", hooks)
    ensures var out := Cursor(doc, command);
            if exists x | x in hooks :: Commands(x, command)
            then ListAt(out, "hooks", "beforeShellExecution", hooks)
            else ListAt(out, "hooks", "beforeShellExecution", hooks + [Obj(map["command" := Str(command)])])
  {
    hide Ensured, WasAt;
    var stamped := doc["version" := Num("1")];
    WasAtElsewhere(doc, stamped, "hooks", "beforeShellExecution", hooks);
    EnsuredAdds(stamped, "hooks", "beforeShellExecution", e => CursorInvokes(e, command), CursorEntry(command), hooks);
  }

  /** A merge loses nothing of the user's document exactly when the nodes it
      touches are absent or well-typed. */
  lemma ClaudeKeepsIffFits(doc: Fields, command: string)
    ensures Grows(Obj(doc), Obj(Claude(doc, command))) <==>
            Fits(doc, "hooks", "PreToolUse") && Fits(doc, "permissions", "allow")
  {
    hide Ensured;
    var invokes, isRule := (e: Json) => EntryInvokes(e, command), (a: Json) => IsRule(a, ALLOW_RULE);
    var mid := Ensured(doc, "hooks", "PreToolUse", invokes, ClaudeEntry(command));
    var out := Ensured(mid, "permissions", "allow", isRule, Str(ALLOW_RULE));
    EnsuredGrowsIffFits(doc, "hooks", "PreToolUse", invokes, ClaudeEntry(command));
    EnsuredGrowsIffFits(mid, "permissions", "allow", isRule, Str(ALLOW_RULE));
    GrowsByKeys(doc, mid);
    GrowsByKeys(mid, out);
    GrowsByKeys(doc, out);
    forall k ensures k != "hooks" ==> ((k in mid <==> k in doc) && (k in doc ==> mid[k] == doc[k])) {
      if k != "hooks" { EnsuredLeavesOthers(doc, "hooks", "PreToolUse", invokes, ClaudeEntry(command), k); }
    }
    forall k ensures k != "permissions" ==> ((k in out <==> k in mid) && (k in mid ==> out[k] == mid[k])) {
      if k != "permissions" { EnsuredLeavesOthers(mid, "permissions", "allow", isRule, Str(ALLOW_RULE), k); }
    }
  }

  lemma GrowsByKeys(a: Fields, b: Fields)
    ensures Grows(Obj(a), Obj(b)) <==> forall k | k in a :: k in b && Grows(a[k], b[k])
  {
  }

  lemma CodexKeepsIffFits(doc: Fields, command: string)
    ensures Grows(Obj(doc), Obj(Codex(doc, command))) <==> Fits(doc, "hooks", "PreToolUse")
  {
    EnsuredGrowsIffFits(doc, "hooks", "PreToolUse", e => EntryInvokes(e, command), CodexEntry(command));
  }

  lemma CursorKeepsIffFits(doc: Fields, command: string)
    ensures Grows(Obj(doc), Obj(Cursor(doc, command))) <==>
            Fits(doc, "hooks", "beforeShellExecution") && ("version" in doc ==> doc["version"] == Num("1"))
  {
    hide Ensured;
    var invokes := (e: Json) => CursorInvokes(e, command);
    var stamped := doc["version" := Num("1")];
    var out := Ensured(stamped, "hooks", "beforeShellExecution", invokes, CursorEntry(command));
    EnsuredGrowsIffFits(stamped, "hooks", "beforeShellExecution", invokes, CursorEntry(command));
    GrowsByKeys(stamped, out);
    GrowsByKeys(doc, out);
    EnsuredLeavesOthers(stamped, "hooks", "beforeShellExecution", invokes, CursorEntry(command), "version");
    assert Fits(stamped, "hooks", "beforeShellExecution") <==> Fits(doc, "hooks", "beforeShellExecution");
  }

  // ----- the file around the document -----

  /** What the settings file holds: nothing, text that is no JSON, or a value. */
  datatype File = Empty | Garbled | Holds(value: Json)
  datatype Outcome = Written(doc: Fields) | ParseError | Panic
  datatype Tool = ClaudeCode | CodexCli | CursorEditor

  function Merged(tool: Tool, doc: Fields, command: string): Fields {
    match tool
    case ClaudeCode => Claude(doc, command)
    case CodexCli => Codex(doc, command)
    case CursorEditor => Cursor(doc, command)
  }

  /** Decoding `null` into a map leaves a nil map, and each merge begins with a
      write to it, which panics. */
  function MergeFile(tool: Tool, file: File, command: string): Outcome {
    match file
    case Empty => Written(Merged(tool, map[], command))
    case Garbled => ParseError
    case Holds(Obj(fields)) => Written(Merged(tool, fields, command))
    case Holds(Null) => Panic
    case Holds(_) => ParseError
  }

  /** For each tool a merge of the file twice over is a merge once, for every file
      that merges at all; a file merges exactly when it is empty or holds an object,
      and holding `null` it takes the program down. */
  lemma FileMergesOnce(tool: Tool, file: File, command: string)
    ensures var out := MergeFile(tool, file, command);
            && out.Written? == (file == Empty || (file.Holds? && file.value.Obj?))
            && (out == Panic <==> file == Holds(Null))
            && (out.Written? ==> MergeFile(tool, Holds(Obj(out.doc)), command) == out)
  {
    hide Claude, Codex, Cursor;
    var doc := if file.Holds? && file.value.Obj? then file.value.fields else map[];
    ClaudeMergesOnce(doc, command);
    CodexMergesOnce(doc, command);
    CursorMergesOnce(doc, command);
  }
}
