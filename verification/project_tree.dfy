/** `scanDirectory` and `formatStructure`, which lib/ast-parser-improved.js,
    lib/ast-parser-fixed.js and lib/enhanced-analyzer.js each define. The
    copies differ only in the skip list and in how a file's export list is
    obtained, so both are parameters here. The file system is an in-memory
    tree: a directory entry is what `statSync` and the reads see of it. */
module ProjectTree {
  import opened Wrappers
  import opened Ast
  import opened Text
  import opened OrderedSet
  import opened PathNames

  /** One name of a `readdirSync` listing. */
  datatype FsItem =
    | File(name: string, content: Option<string>)  // `None`: reading it throws
    | Directory(name: string, items: seq<FsItem>)
    | Unlistable(name: string)  // a directory whose `readdirSync` throws
    | Unstatable(name: string)  // `statSync` throws

  /** A value of the `result` object: a nested object for a directory, the
      export list for a file. Object keys keep their insertion order. */
  datatype Contents = Folder(entries: seq<Entry>) | Names(names: seq<Value>)

  datatype Entry = Entry(key: string, contents: Contents)

  /** How a variant obtains a file's export list from its joined path and
      its text (`None` when the read fails). */
  type FileExports = (string, Option<string>) -> seq<Value>

  /** The default `skipDirs` of lib/ast-parser-improved.js and
      lib/ast-parser-fixed.js. */
  const LegacySkip: seq<string> := ["node_modules", ".git", ".next", "dist", "build"]

  /** The default `skipDirs` of lib/enhanced-analyzer.js. */
  const EnhancedSkip: seq<string> := LegacySkip + ["__pycache__", "venv", "env", ".venv", ".env", "site-packages"]

  /** `!skipDirs.includes(item) && !item.startsWith('.')`. */
  predicate Descend(name: string, skip: seq<string>) {
    name !in skip && !StartsWith(name, ".")
  }

  function Keys(entries: seq<Entry>): (r: seq<string>)
    ensures |r| == |entries|
    ensures forall k :: 0 <= k < |r| ==> r[k] == entries[k].key
  {
    if entries == [] then [] else [entries[0].key] + Keys(entries[1..])
  }

  /** Where `key` sits among the keys, or `|entries|` when it is absent. */
  function KeyIndex(entries: seq<Entry>, key: string): (i: nat)
    ensures i <= |entries|
    ensures i < |entries| ==> entries[i].key == key
    ensures forall j :: 0 <= j < i ==> entries[j].key != key
  {
    if entries == [] || entries[0].key == key then 0 else 1 + KeyIndex(entries[1..], key)
  }

  /** `result[key] = value`: a key already present keeps its place and takes
      the new value, a new key goes last. */
  function Put(entries: seq<Entry>, key: string, c: Contents): (r: seq<Entry>)
    ensures Keys(r) == Insert(Keys(entries), key)
    ensures Entry(key, c) in r
    ensures forall e :: e in entries && e.key != key ==> e in r
    ensures forall e :: e in r ==> e in entries || e == Entry(key, c)
  {
    var i := KeyIndex(entries, key);
    if i < |entries| then
      Replaced(entries, i, Entry(key, c));
      entries[i := Entry(key, c)]
    else
      Appended(entries, Entry(key, c));
      entries + [Entry(key, c)]
  }

  /** Overwriting the entry with the same key keeps the keys and every
      other entry. */
  lemma Replaced(entries: seq<Entry>, i: nat, e: Entry)
    requires i < |entries| && entries[i].key == e.key
    ensures Keys(entries[i := e]) == Insert(Keys(entries), e.key)
    ensures forall x :: x in entries && x.key != e.key ==> x in entries[i := e]
    ensures forall x :: x in entries[i := e] ==> x in entries || x == e
  {
    var r := entries[i := e];
    assert Keys(entries)[i] == e.key;
    assert Keys(r) == Keys(entries);
    forall x | x in entries && x.key != e.key
      ensures x in r
    {
      var k :| 0 <= k < |entries| && entries[k] == x;
      assert r[k] == x;
    }
  }

  /** A new key goes last. */
  lemma Appended(entries: seq<Entry>, e: Entry)
    requires forall j :: 0 <= j < |entries| ==> entries[j].key != e.key
    ensures e.key !in Keys(entries)
    ensures Keys(entries + [e]) == Keys(entries) + [e.key]
  {
    KeysAppend(entries, e);
  }

  lemma {:induction false} KeysAppend(entries: seq<Entry>, e: Entry)
    ensures Keys(entries + [e]) == Keys(entries) + [e.key]
  {
    if entries != [] {
      assert (entries + [e])[1..] == entries[1..] + [e];
      KeysAppend(entries[1..], e);
    } else {
      assert entries + [e] == [e];
    }
  }

  /** The key an entry is stored under. */
  function ItemKey(item: FsItem): string {
    if item.File? then item.name else item.name + "/"
  }

  /** Whether the loop stores something for this entry. */
  predicate Recorded(item: FsItem, skip: seq<string>) {
    item.File? || (!item.Unstatable? && Descend(item.name, skip))
  }

  /** How many entries the loop reaches: it stops at the first entry whose
      `statSync` throws. */
  function Reached(items: seq<FsItem>): (r: nat)
    ensures r <= |items|
    ensures forall j :: 0 <= j < r ==> !items[j].Unstatable?
    ensures r < |items| ==> items[r].Unstatable?
  {
    if items == [] || items[0].Unstatable? then 0 else 1 + Reached(items[1..])
  }

  /** `scanDirectory(path)` with the listing `readdirSync` returns, or
      `None` when it throws: the whole body is in the `try`, so that gives
      an empty object. Every object the scan builds has distinct keys. */
  function Scan(path: string, listing: Option<seq<FsItem>>, skip: seq<string>, exportsOf: FileExports): (r: seq<Entry>)
    ensures NoDup(Keys(r))
  {
    match listing
    case None => []
    case Some(items) => ScanItems(path, items, skip, exportsOf, [])
  }

  /** The `for (const item of items)` loop from the object built so far. */
  function ScanItems(path: string, items: seq<FsItem>, skip: seq<string>, exportsOf: FileExports, result: seq<Entry>): (r: seq<Entry>)
    ensures NoDup(Keys(result)) ==> NoDup(Keys(r))
    decreases items
  {
    if items == [] || items[0].Unstatable? then result
    else ScanItems(path, items[1..], skip, exportsOf, Step(path, items[0], skip, exportsOf, result))
  }

  /** One turn of the loop for an entry whose `statSync` succeeds: a
      recorded entry is stored under its key. */
  function Step(path: string, item: FsItem, skip: seq<string>, exportsOf: FileExports, result: seq<Entry>): (r: seq<Entry>)
    requires !item.Unstatable?
    ensures Keys(r) == if Recorded(item, skip) then Insert(Keys(result), ItemKey(item)) else Keys(result)
    ensures forall e :: e in result && e.key != ItemKey(item) ==> e in r
    ensures forall e :: e in r ==> e in result || e == Stored(path, item, skip, exportsOf)
    ensures Recorded(item, skip) ==> Stored(path, item, skip, exportsOf) in r
    decreases item, 1
  {
    if Recorded(item, skip) then Put(result, ItemKey(item), Stored(path, item, skip, exportsOf).contents) else result
  }

  /** What a recorded entry is stored as: a file with its export list, a
      directory with the object of its own scan (empty when it cannot be
      listed). */
  function Stored(path: string, item: FsItem, skip: seq<string>, exportsOf: FileExports): (r: Entry)
    requires !item.Unstatable?
    ensures r.key == ItemKey(item)
    decreases item, 0
  {
    match item
    case File(name, content) => Entry(name, Names(exportsOf(JoinPath(path, name), content)))
    case Directory(name, sub) => Entry(name + "/", Folder(ScanItems(JoinPath(path, name), sub, skip, exportsOf, [])))
    case Unlistable(name) => Entry(name + "/", Folder([]))
  }

  /** `scanDirectory(dirPath)`. */
  method ScanDirectory(path: string, listing: Option<seq<FsItem>>, skip: seq<string>, exportsOf: FileExports)
    returns (result: seq<Entry>)
    ensures result == Scan(path, listing, skip, exportsOf)
  {
    if listing.None? {
      return [];
    }
    result := ScanListing(path, listing.value, skip, exportsOf);
  }

  /** The loop of `scanDirectory` over a listing that `readdirSync`
      returned; a subdirectory is scanned by the recursive call. */
  method ScanListing(path: string, items: seq<FsItem>, skip: seq<string>, exportsOf: FileExports)
    returns (result: seq<Entry>)
    ensures result == ScanItems(path, items, skip, exportsOf, [])
    decreases items
  {
    result := [];
    var k := 0;
    while k < |items|
      invariant 0 <= k <= |items|
      invariant ScanItems(path, items, skip, exportsOf, []) == ScanItems(path, items[k..], skip, exportsOf, result)
    {
      assert items[k..][1..] == items[k + 1..];
      var item := items[k];
      match item {
        case Unstatable(_) =>
          return;
        case File(name, content) =>
          result := Put(result, name, Names(exportsOf(JoinPath(path, name), content)));
        case Directory(name, sub) =>
          if Descend(name, skip) {
            var nested := ScanListing(JoinPath(path, name), sub, skip, exportsOf);
            result := Put(result, name + "/", Folder(nested));
          }
        case Unlistable(name) =>
          if Descend(name, skip) {
            result := Put(result, name + "/", Folder([]));
          }
      }
      k := k + 1;
    }
  }

  /** A `statSync` failure ends the listing: the entries after it are never
      looked at, and the ones before it stay. */
  lemma {:induction false} StatFailureEndsListing(path: string, items: seq<FsItem>, skip: seq<string>, exportsOf: FileExports, result: seq<Entry>)
    ensures ScanItems(path, items, skip, exportsOf, result) == ScanItems(path, items[..Reached(items)], skip, exportsOf, result)
    decreases items
  {
    if items != [] && !items[0].Unstatable? {
      var item := items[0];
      assert items[..Reached(items)][1..] == items[1..][..Reached(items[1..])];
      assert items[..Reached(items)][0] == item;
      var next := Step(path, item, skip, exportsOf, result);
      StatFailureEndsListing(path, items[1..], skip, exportsOf, next);
    } else {
      assert items[..Reached(items)] == [];
    }
  }

  /** The keys of the object are exactly the keys of the recorded entries
      before the first `statSync` failure: a file under its name, a
      directory that is not skipped under its name and '/'. */
  lemma {:induction false} ScanKeys(path: string, items: seq<FsItem>, skip: seq<string>, exportsOf: FileExports, result: seq<Entry>, key: string)
    ensures key in Keys(ScanItems(path, items, skip, exportsOf, result)) <==>
      key in Keys(result) ||
      exists j :: 0 <= j < Reached(items) && Recorded(items[j], skip) && ItemKey(items[j]) == key
    decreases items
  {
    if items != [] && !items[0].Unstatable? {
      var item := items[0];
      var next := Step(path, item, skip, exportsOf, result);
      ScanKeys(path, items[1..], skip, exportsOf, next, key);
      assert key in Keys(next) <==> key in Keys(result) || (Recorded(item, skip) && ItemKey(item) == key);
      RecordedKeyStep(items, skip, key);
    }
  }

  /** A key is recorded among the reached entries when the first entry
      records it or a later reached entry does. */
  lemma RecordedKeyStep(items: seq<FsItem>, skip: seq<string>, key: string)
    requires items != [] && !items[0].Unstatable?
    ensures (exists j :: 0 <= j < Reached(items) && Recorded(items[j], skip) && ItemKey(items[j]) == key) <==>
      (Recorded(items[0], skip) && ItemKey(items[0]) == key) ||
      exists j :: 0 <= j < Reached(items[1..]) && Recorded(items[1..][j], skip) && ItemKey(items[1..][j]) == key
  {
    if exists j :: 0 <= j < Reached(items[1..]) && Recorded(items[1..][j], skip) && ItemKey(items[1..][j]) == key {
      var j :| 0 <= j < Reached(items[1..]) && Recorded(items[1..][j], skip) && ItemKey(items[1..][j]) == key;
      assert items[j + 1] == items[1..][j];
    }
    if exists j :: 0 <= j < Reached(items) && Recorded(items[j], skip) && ItemKey(items[j]) == key {
      var j :| 0 <= j < Reached(items) && Recorded(items[j], skip) && ItemKey(items[j]) == key;
      if j > 0 {
        assert items[1..][j - 1] == items[j];
      }
    }
  }

  /** The scan never looks inside a skipped directory: whatever it holds,
      and whether or not it can be listed, the object is the same. */
  lemma {:induction false} SkippedNotDescended(path: string, items: seq<FsItem>, skip: seq<string>, exportsOf: FileExports, result: seq<Entry>, k: nat, other: FsItem)
    requires k < |items| && (items[k].Directory? || items[k].Unlistable?) && !Descend(items[k].name, skip)
    requires (other.Directory? || other.Unlistable?) && other.name == items[k].name
    ensures ScanItems(path, items, skip, exportsOf, result) == ScanItems(path, items[k := other], skip, exportsOf, result)
    decreases items
  {
    var changed := items[k := other];
    assert changed[1..] == if k == 0 then items[1..] else items[1..][k - 1 := other];
    if k > 0 && !items[0].Unstatable? {
      var item := items[0];
      var next := Step(path, item, skip, exportsOf, result);
      SkippedNotDescended(path, items[1..], skip, exportsOf, next, k - 1, other);
    }
  }

  /** An entry already stored stays when no later entry is stored under
      its key. */
  lemma {:induction false} EntryKept(path: string, items: seq<FsItem>, skip: seq<string>, exportsOf: FileExports, result: seq<Entry>, e: Entry)
    requires e in result
    requires forall j :: 0 <= j < |items| ==> ItemKey(items[j]) != e.key
    ensures e in ScanItems(path, items, skip, exportsOf, result)
    decreases items
  {
    if items != [] && !items[0].Unstatable? {
      var item := items[0];
      assert ItemKey(item) != e.key;
      var next := Step(path, item, skip, exportsOf, result);
      assert e in next;
      forall j | 0 <= j < |items[1..]|
        ensures ItemKey(items[1..][j]) != e.key
      {
        assert items[1..][j] == items[j + 1];
      }
      EntryKept(path, items[1..], skip, exportsOf, next, e);
    }
  }

  /** A file reached by the loop is stored under its name with the export
      list of its joined path and text, whatever that list is; a failing
      file does not stop its siblings. */
  lemma {:induction false} FileRecorded(path: string, items: seq<FsItem>, skip: seq<string>, exportsOf: FileExports, result: seq<Entry>, k: nat)
    requires k < Reached(items) && items[k].File?
    requires forall j :: k < j < |items| ==> ItemKey(items[j]) != items[k].name
    ensures Entry(items[k].name, Names(exportsOf(JoinPath(path, items[k].name), items[k].content)))
      in ScanItems(path, items, skip, exportsOf, result)
    decreases items
  {
    var item := items[0];
    var next := Step(path, item, skip, exportsOf, result);
    if k == 0 {
      forall j | 0 <= j < |items[1..]|
        ensures ItemKey(items[1..][j]) != item.name
      {
        assert items[1..][j] == items[j + 1];
      }
      EntryKept(path, items[1..], skip, exportsOf, next, Entry(item.name, Names(exportsOf(JoinPath(path, item.name), item.content))));
    } else {
      assert items[1..][k - 1] == items[k];
      FileRecorded(path, items[1..], skip, exportsOf, next, k - 1);
    }
  }

  /** No '/' in any name, at any depth: what a real listing guarantees. */
  predicate PlainNames(items: seq<FsItem>)
    decreases items
  {
    forall k :: 0 <= k < |items| ==>
      ('/' !in items[k].name && (items[k].Directory? ==> PlainNames(items[k].items)))
  }

  /** A key ends with '/' exactly when it holds a nested object, at every
      depth. */
  predicate WellKeyed(entries: seq<Entry>)
    decreases entries
  {
    forall k :: 0 <= k < |entries| ==>
      ((entries[k].contents.Folder? <==> EndsWith(entries[k].key, "/")) &&
       (entries[k].contents.Folder? ==> WellKeyed(entries[k].contents.entries)))
  }

  /** With plain names the scan builds a well-keyed object, so the
      formatter's `name.endsWith('/')` test and the kind of value agree. */
  lemma {:induction false} ScanWellKeyed(path: string, items: seq<FsItem>, skip: seq<string>, exportsOf: FileExports, result: seq<Entry>)
    requires PlainNames(items) && WellKeyed(result)
    ensures WellKeyed(ScanItems(path, items, skip, exportsOf, result))
    decreases items
  {
    if items != [] && !items[0].Unstatable? {
      var item := items[0];
      assert '/' !in item.name;
      var next := Step(path, item, skip, exportsOf, result);
      if item.File? {
        assert !EndsWith(item.name, "/");
      } else {
        assert EndsWith(item.name + "/", "/");
        if item.Directory? && Descend(item.name, skip) {
          ScanWellKeyed(JoinPath(path, item.name), item.items, skip, exportsOf, []);
        }
      }
      assert WellKeyed(next) by {
        forall k | 0 <= k < |next|
          ensures (next[k].contents.Folder? <==> EndsWith(next[k].key, "/")) &&
            (next[k].contents.Folder? ==> WellKeyed(next[k].contents.entries))
        {
          assert next[k] in next;
          if next[k] in result {
            var i :| 0 <= i < |result| && result[i] == next[k];
          }
        }
      }
      assert PlainNames(items[1..]) by {
        forall k | 0 <= k < |items[1..]|
          ensures '/' !in items[1..][k].name && (items[1..][k].Directory? ==> PlainNames(items[1..][k].items))
        {
          assert items[1..][k] == items[k + 1];
        }
      }
      ScanWellKeyed(path, items[1..], skip, exportsOf, next);
    }
  }

  /** `value.join(sep)`: null and undefined items print as "". */
  function JoinValues(vs: seq<Value>, sep: string): string {
    Join(Texts(vs), sep)
  }

  function Texts(vs: seq<Value>): (r: seq<string>)
    ensures |r| == |vs|
  {
    if vs == [] then []
    else [if vs[0] == Undefined || vs[0] == Null then "" else Show(vs[0])] + Texts(vs[1..])
  }

  /** One line of the tree before indentation: its depth, and what follows
      "- ". */
  datatype Line = Line(depth: nat, text: string)

  /** The text of an entry's line: a directory and a file without exports
      show the key alone, a file with exports adds ": " and the list. */
  function Label(e: Entry): (r: string)
    ensures |e.key| <= |r| && r[..|e.key|] == e.key
  {
    match e.contents
    case Folder(_) => e.key
    case Names(ns) => if |ns| > 0 then e.key + ": " + JoinValues(ns, ", ") else e.key
  }

  /** Reference order of the printed lines: every entry in key order, each
      directory's entries right after it, one level deeper. */
  function Outline(entries: seq<Entry>, depth: nat): (r: seq<Line>)
    ensures |r| >= |entries|
    ensures forall k :: 0 <= k < |r| ==> r[k].depth >= depth
    decreases entries, 1
  {
    if entries == [] then [] else EntryOutline(entries[0], depth) + Outline(entries[1..], depth)
  }

  /** An entry's own line, then its nested lines. */
  function EntryOutline(e: Entry, depth: nat): (r: seq<Line>)
    ensures |r| >= 1 && r[0] == Line(depth, Label(e))
    ensures forall k :: 0 <= k < |r| ==> r[k].depth >= depth
    decreases e, 0
  {
    [Line(depth, Label(e))] + match e.contents case Folder(sub) => Outline(sub, depth + 1) case Names(_) => []
  }

  /** Two spaces per level. */
  function Indent(depth: nat): string {
    Repeat("  ", depth)
  }

  /** The lines, each indented and ended by a newline. */
  function Render(lines: seq<Line>): string {
    if lines == [] then "" else Indent(lines[0].depth) + "- " + lines[0].text + "\n" + Render(lines[1..])
  }

  lemma {:induction false} RenderAppend(a: seq<Line>, b: seq<Line>)
    ensures Render(a + b) == Render(a) + Render(b)
  {
    if a != [] {
      assert (a + b)[1..] == a[1..] + b;
      RenderAppend(a[1..], b);
    } else {
      assert a + b == b;
    }
  }

  /** `formatStructure(structure, indent)`, as written: directories are the
      entries holding an object. */
  function Format(entries: seq<Entry>, indent: nat): string
    decreases entries, 1
  {
    if entries == [] then "" else EntryText(entries[0], indent) + Format(entries[1..], indent)
  }

  /** What one turn of the loop appends to `output`. */
  function EntryText(e: Entry, indent: nat): string
    decreases e, 0
  {
    var spaces := Indent(indent);
    match e.contents
    case Folder(sub) => spaces + "- " + e.key + "\n" + Format(sub, indent + 1)
    case Names(ns) =>
      if |ns| > 0 then spaces + "- " + e.key + ": " + JoinValues(ns, ", ") + "\n"
      else spaces + "- " + e.key + "\n"
  }

  /** The formatted tree is the outline rendered line by line: one line per
      entry at every depth, indented two spaces per level. */
  lemma {:induction false} FormatRendersOutline(entries: seq<Entry>, depth: nat)
    ensures Format(entries, depth) == Render(Outline(entries, depth))
    decreases entries, 1
  {
    if entries != [] {
      EntryRendersOutline(entries[0], depth);
      FormatRendersOutline(entries[1..], depth);
      RenderAppend(EntryOutline(entries[0], depth), Outline(entries[1..], depth));
    }
  }

  lemma {:induction false} EntryRendersOutline(e: Entry, depth: nat)
    ensures EntryText(e, depth) == Render(EntryOutline(e, depth))
    decreases e, 0
  {
    var first := [Line(depth, Label(e))];
    var nested := match e.contents case Folder(sub) => Outline(sub, depth + 1) case Names(_) => [];
    assert EntryOutline(e, depth) == first + nested;
    RenderAppend(first, nested);
    assert Render(first) == Indent(depth) + "- " + Label(e) + "\n" by {
      assert first[1..] == [];
    }
    match e.contents {
      case Folder(sub) =>
        FormatRendersOutline(sub, depth + 1);
      case Names(ns) =>
        assert nested == [];
    }
  }

  /** `formatStructure(structure, indent)`: the loop appends each entry's
      line to `output`, and a directory's nested block after it. */
  method FormatStructure(entries: seq<Entry>, indent: nat) returns (output: string)
    ensures output == Format(entries, indent)
    decreases entries, 1
  {
    output := "";
    var k := 0;
    while k < |entries|
      invariant 0 <= k <= |entries|
      invariant Format(entries, indent) == output + Format(entries[k..], indent)
    {
      assert entries[k..][1..] == entries[k + 1..];
      var text := FormatEntry(entries[k], indent);
      output := output + text;
      k := k + 1;
    }
  }

  /** One turn of the loop of `formatStructure`. */
  method FormatEntry(e: Entry, indent: nat) returns (text: string)
    ensures text == EntryText(e, indent)
    decreases e, 0
  {
    var spaces := Repeat("  ", indent);
    match e.contents {
      case Folder(sub) =>
        text := spaces + "- " + e.key + "\n";
        var nested := FormatStructure(sub, indent + 1);
        text := text + nested;
      case Names(ns) =>
        if |ns| > 0 {
          text := spaces + "- " + e.key + ": " + JoinValues(ns, ", ") + "\n";
        } else {
          text := spaces + "- " + e.key + "\n";
        }
    }
  }

  /** A file with two exports, one level deep. */
  lemma FileLineExample()
    ensures Format([Entry("index.js", Names([Str("a"), Str("b")]))], 1) == "  - index.js: a, b\n"
  {
    var names := [Str("a"), Str("b")];
    var file := Entry("index.js", Names(names));
    assert Texts(names) == ["a", "b"] by {
      assert names[1..] == [Str("b")];
      assert Texts([Str("b")]) == ["b"];
    }
    assert JoinValues(names, ", ") == "a, b" by {
      assert ["a", "b"][1..] == ["b"];
    }
    assert Indent(1) == "  " by {
      assert Repeat("  ", 0) == "";
    }
    assert EntryText(file, 1) == "  " + "- " + "index.js" + ": " + "a, b" + "\n";
    assert [file][1..] == [];
    assert Format([file], 1) == EntryText(file, 1) + Format([], 1);
  }

  /** A small project: one directory with a file that exports two names,
      and a file without exports. */
  lemma FormatExample()
    ensures Format([Entry("src/", Folder([Entry("index.js", Names([Str("a"), Str("b")]))])),
                    Entry("README.md", Names([]))], 0)
      == "- src/\n" + "  - index.js: a, b\n" + "- README.md\n"
  {
    var file := Entry("index.js", Names([Str("a"), Str("b")]));
    var dir := Entry("src/", Folder([file]));
    var readme := Entry("README.md", Names([]));
    FileLineExample();
    assert Indent(0) == "";
    assert Format([readme], 0) == "- README.md\n" by {
      assert [readme][1..] == [];
    }
    assert [dir, readme][1..] == [readme];
  }
}
