/** lib/cli-utils.js: `parseArguments`, the loop that turns the command
    line into options, and the `walk` renderer of the "simple" output
    format. `process.cwd()` and `path.resolve` are parameters. */
module Cli {
  import opened Wrappers
  import opened Text
  import opened Ast
  import opened ProjectTree

  datatype Options = Options(targetDir: string, help: bool, version: bool, format: string, verbose: bool)

  /** `path.resolve(arg)`. */
  type Resolver = string -> string

  /** The options before any argument is read. */
  function Defaults(cwd: string): Options {
    Options(cwd, false, false, "tree", false)
  }

  /** `argv.slice(2)`. */
  function UserArgs(argv: seq<string>): (r: seq<string>)
    ensures |argv| >= 2 ==> r == argv[2..]
    ensures |argv| < 2 ==> r == []
  {
    if |argv| < 2 then [] else argv[2..]
  }

  predicate IsFormatFlag(arg: string) {
    arg == "--format" || arg == "-f"
  }

  /** The options once the loop has read `args`, starting from `o`:
      `--format` takes the next argument whatever it is, and "tree" when
      there is none or it is empty; any other argument starting with '-'
      that is not a known flag is skipped. */
  function Parse(args: seq<string>, o: Options, resolve: Resolver): Options
    decreases |args|
  {
    if args == [] then o
    else
      var arg := args[0];
      if arg == "--help" || arg == "-h" then Parse(args[1..], o.(help := true), resolve)
      else if arg == "--version" || arg == "-v" then Parse(args[1..], o.(version := true), resolve)
      else if IsFormatFlag(arg) then
        if |args| == 1 then o.(format := "tree")
        else Parse(args[2..], o.(format := if args[1] != "" then args[1] else "tree"), resolve)
      else if arg == "--verbose" then Parse(args[1..], o.(verbose := true), resolve)
      else if !StartsWith(arg, "-") then Parse(args[1..], o.(targetDir := resolve(arg)), resolve)
      else Parse(args[1..], o, resolve)
  }

  /** `parseArguments(argv)`. */
  method ParseArguments(argv: seq<string>, cwd: string, resolve: Resolver) returns (options: Options)
    ensures options == Parse(UserArgs(argv), Defaults(cwd), resolve)
  {
    var args := if |argv| < 2 then [] else argv[2..];
    options := Defaults(cwd);
    var i := 0;
    while i < |args|
      invariant 0 <= i <= |args| + 1
      invariant i <= |args| ==> Parse(args, Defaults(cwd), resolve) == Parse(args[i..], options, resolve)
      invariant i > |args| ==> Parse(args, Defaults(cwd), resolve) == options
      decreases |args| + 1 - i
    {
      var arg := args[i];
      assert args[i..][1..] == args[i + 1..];
      if arg == "--help" || arg == "-h" {
        options := options.(help := true);
      } else if arg == "--version" || arg == "-v" {
        options := options.(version := true);
      } else if arg == "--format" || arg == "-f" {
        i := i + 1;
        options := options.(format := if i < |args| && args[i] != "" then args[i] else "tree");
        if i < |args| {
          assert args[i - 1..][2..] == args[i + 1..];
        }
      } else if arg == "--verbose" {
        options := options.(verbose := true);
      } else if !StartsWith(arg, "-") {
        options := options.(targetDir := resolve(arg));
      }
      i := i + 1;
    }
  }

  /** The last argument that does not start with '-', if any. */
  function LastPositional(args: seq<string>): (r: Option<string>)
    ensures r.Some? ==> r.value in args && !StartsWith(r.value, "-")
    ensures r.None? ==> forall a :: a in args ==> StartsWith(a, "-")
  {
    if args == [] then None
    else
      var rest := LastPositional(args[1..]);
      if rest.Some? then rest
      else if !StartsWith(args[0], "-") then Some(args[0])
      else None
  }

  /** Without `--format` on the line every argument is read alone: a flag
      is set exactly when it appears, and the target directory is the last
      argument that does not start with '-' (the last one wins, not the
      first). */
  lemma {:induction false} ParseWithoutFormat(args: seq<string>, o: Options, resolve: Resolver)
    requires forall a :: a in args ==> !IsFormatFlag(a)
    ensures var r := Parse(args, o, resolve);
      && r.help == (o.help || "--help" in args || "-h" in args)
      && r.version == (o.version || "--version" in args || "-v" in args)
      && r.verbose == (o.verbose || "--verbose" in args)
      && r.format == o.format
      && r.targetDir == match LastPositional(args) case Some(t) => resolve(t) case None => o.targetDir
    decreases |args|
  {
    if args != [] {
      var arg := args[0];
      assert forall a :: a in args[1..] ==> a in args;
      var o' := PlainStep(arg, o, resolve);
      ParsePlainStep(args, o, resolve);
      ParseWithoutFormat(args[1..], o', resolve);
      assert forall a :: a in args <==> a == arg || a in args[1..] by {
        assert args == [arg] + args[1..];
      }
      PlainStepFlags(arg, o, resolve);
    }
  }

  /** What reading one argument other than `--format` does to the options. */
  function PlainStep(arg: string, o: Options, resolve: Resolver): Options {
    if arg == "--help" || arg == "-h" then o.(help := true)
    else if arg == "--version" || arg == "-v" then o.(version := true)
    else if arg == "--verbose" then o.(verbose := true)
    else if !StartsWith(arg, "-") then o.(targetDir := resolve(arg))
    else o
  }

  lemma ParsePlainStep(args: seq<string>, o: Options, resolve: Resolver)
    requires args != [] && !IsFormatFlag(args[0])
    ensures Parse(args, o, resolve) == Parse(args[1..], PlainStep(args[0], o, resolve), resolve)
  {
  }

  /** One argument sets the flag it spells, and only that one. */
  lemma PlainStepFlags(arg: string, o: Options, resolve: Resolver)
    requires !IsFormatFlag(arg)
    ensures var o' := PlainStep(arg, o, resolve);
      && o'.help == (o.help || arg == "--help" || arg == "-h")
      && o'.version == (o.version || arg == "--version" || arg == "-v")
      && o'.verbose == (o.verbose || arg == "--verbose")
      && o'.format == o.format
      && o'.targetDir == if !StartsWith(arg, "-") then resolve(arg) else o.targetDir
  {
    assert "--help" == ['-', '-', 'h', 'e', 'l', 'p'] && "-h" == ['-', 'h'];
    assert "--version" == ['-', '-', 'v', 'e', 'r', 's', 'i', 'o', 'n'] && "-v" == ['-', 'v'];
    assert "--verbose" == ['-', '-', 'v', 'e', 'r', 'b', 'o', 's', 'e'];
  }

  /** `--format` takes the next argument even when it looks like a flag, so
      `mindex -f --help` asks for a format called "--help" and no help. */
  lemma FormatTakesFlag(cwd: string, resolve: Resolver)
    ensures Parse(["-f", "--help"], Defaults(cwd), resolve) == Defaults(cwd).(format := "--help")
  {
    assert ["-f", "--help"][2..] == [];
  }

  /** A missing or empty value gives "tree". */
  lemma FormatDefaults(o: Options, resolve: Resolver)
    ensures Parse(["--format"], o, resolve).format == "tree"
    ensures Parse(["-f", ""], o, resolve).format == "tree"
  {
    assert ["-f", ""][2..] == [];
  }

  /** The lines `walk(obj, prefix)` pushes: a directory key, then its
      entries with two more spaces; a file key, with ": " and the joined
      list when that join is not empty. */
  function SimpleLines(entries: seq<Entry>, prefix: string): seq<string>
    decreases entries, 1
  {
    if entries == [] then [] else SimpleEntry(entries[0], prefix) + SimpleLines(entries[1..], prefix)
  }

  function SimpleEntry(e: Entry, prefix: string): seq<string>
    decreases e, 0
  {
    match e.contents
    case Folder(sub) => [prefix + e.key] + SimpleLines(sub, prefix + "  ")
    case Names(ns) =>
      var exports := JoinValues(ns, ", ");
      [prefix + e.key + (if exports != "" then ": " + exports else "")]
  }

  /** `walk(obj, prefix)`, pushing onto `lines`. */
  method Walk(entries: seq<Entry>, prefix: string, lines: seq<string>) returns (lines': seq<string>)
    ensures lines' == lines + SimpleLines(entries, prefix)
    decreases entries, 1
  {
    lines' := lines;
    var k := 0;
    while k < |entries|
      invariant 0 <= k <= |entries|
      invariant lines + SimpleLines(entries, prefix) == lines' + SimpleLines(entries[k..], prefix)
    {
      assert entries[k..][1..] == entries[k + 1..];
      lines' := WalkEntry(entries[k], prefix, lines');
      k := k + 1;
    }
  }

  /** One turn of the loop of `walk`. */
  method WalkEntry(e: Entry, prefix: string, lines: seq<string>) returns (lines': seq<string>)
    ensures lines' == lines + SimpleEntry(e, prefix)
    decreases e, 0
  {
    match e.contents {
      case Folder(sub) =>
        lines' := lines + [prefix + e.key];
        lines' := Walk(sub, prefix + "  ", lines');
      case Names(ns) =>
        var exports := JoinValues(ns, ", ");
        lines' := lines + [prefix + e.key + (if exports != "" then ": " + exports else "")];
    }
  }

  /** The "simple" output: `lines.join('\n')` after `walk(result)`. */
  method SimpleList(entries: seq<Entry>) returns (text: string)
    ensures text == Join(SimpleLines(entries, ""), "\n")
  {
    var lines := Walk(entries, "", []);
    assert [] + SimpleLines(entries, "") == SimpleLines(entries, "");
    text := Join(lines, "\n");
  }

  /** Every export list is empty or prints as something. */
  predicate ListsPrint(entries: seq<Entry>)
    decreases entries
  {
    forall k :: 0 <= k < |entries| ==>
      ((entries[k].contents.Names? ==> entries[k].contents.names == [] || JoinValues(entries[k].contents.names, ", ") != "") &&
       (entries[k].contents.Folder? ==> ListsPrint(entries[k].contents.entries)))
  }

  /** The indented lines of an outline, without the "- " marker. */
  function Indented(lines: seq<Line>): (r: seq<string>)
    ensures |r| == |lines|
  {
    if lines == [] then [] else [Indent(lines[0].depth) + lines[0].text] + Indented(lines[1..])
  }

  lemma {:induction false} IndentedAppend(a: seq<Line>, b: seq<Line>)
    ensures Indented(a + b) == Indented(a) + Indented(b)
  {
    if a != [] {
      assert (a + b)[1..] == a[1..] + b;
      IndentedAppend(a[1..], b);
    } else {
      assert a + b == b;
    }
  }

  /** When every export list prints as something or is empty, the simple
      list and the tree format show the same lines in the same order, the
      simple one without the "- " marker. */
  lemma {:induction false} SimpleFollowsOutline(entries: seq<Entry>, depth: nat)
    requires ListsPrint(entries)
    ensures SimpleLines(entries, Indent(depth)) == Indented(Outline(entries, depth))
    decreases entries, 1
  {
    if entries != [] {
      SimpleEntryFollowsOutline(entries[0], depth);
      assert ListsPrint(entries[1..]) by {
        forall k | 0 <= k < |entries[1..]|
          ensures (entries[1..][k].contents.Names? ==> entries[1..][k].contents.names == [] || JoinValues(entries[1..][k].contents.names, ", ") != "") &&
            (entries[1..][k].contents.Folder? ==> ListsPrint(entries[1..][k].contents.entries))
        {
          assert entries[1..][k] == entries[k + 1];
        }
      }
      SimpleFollowsOutline(entries[1..], depth);
      IndentedAppend(EntryOutline(entries[0], depth), Outline(entries[1..], depth));
    }
  }

  lemma {:induction false} SimpleEntryFollowsOutline(e: Entry, depth: nat)
    requires e.contents.Names? ==> e.contents.names == [] || JoinValues(e.contents.names, ", ") != ""
    requires e.contents.Folder? ==> ListsPrint(e.contents.entries)
    ensures SimpleEntry(e, Indent(depth)) == Indented(EntryOutline(e, depth))
    decreases e, 0
  {
    var first := [Line(depth, Label(e))];
    match e.contents {
      case Folder(sub) =>
        RepeatAppend("  ", depth);
        SimpleFollowsOutline(sub, depth + 1);
        assert EntryOutline(e, depth) == first + Outline(sub, depth + 1);
        IndentedAppend(first, Outline(sub, depth + 1));
      case Names(ns) =>
        assert EntryOutline(e, depth) == first;
        assert first[1..] == [];
        var exports := JoinValues(ns, ", ");
        if ns == [] {
          assert Texts(ns) == [];
          assert Indent(depth) + e.key + "" == Indent(depth) + Label(e);
        } else {
          assert Indent(depth) + e.key + (": " + exports) == Indent(depth) + Label(e);
        }
    }
  }

  /** Where the two renderers part: a list whose only name prints as the
      empty string shows its ": " in the tree format but not in the simple
      list. */
  lemma EmptyNameDiffers()
    ensures Format([Entry("a.js", Names([Null]))], 0) == "- a.js: \n"
    ensures SimpleLines([Entry("a.js", Names([Null]))], "") == ["a.js"]
  {
    var e := Entry("a.js", Names([Null]));
    assert Texts([Null]) == [""];
    assert JoinValues([Null], ", ") == "";
    assert [e][1..] == [];
    assert Indent(0) == "";
    assert SimpleEntry(e, "") == ["" + "a.js" + ""];
    assert "" + "a.js" + "" == "a.js";
  }
}
