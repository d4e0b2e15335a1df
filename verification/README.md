# mini-index export recognition, in Dafny

mini-index prints a project as an indented tree. Each file in the tree is listed with the names it exports. This project models the part that decides those names, and proves properties of it:

- Five export extractors:
  - the improved parser (typescript-estree or espree, one insertion-ordered Set);
  - the fixed parser (espree alone, with a type-stripping fallback for TypeScript files);
  - the enhanced analyzer, which picks a parser by extension;
  - the TypeScript parser, which builds kind-tagged records;
  - the JSX parser, which builds component records.
- The two Python symbol filters.
- The shared AST helpers.
- The directory scan and the tree formatter that the three analyzers each define.
- The command-line argument parser and the "simple" output format.

The syntax trees the foreign parsers return are modelled as an arena (module `Ast`):

- A node is its `type` tag plus its keys in enumeration order.
- A key holds a primitive, a reference to a node, or an array.
- Sharing and cycles (a `parent` back-link) are explicit.

Every property read the source does without a guard can throw. It is modelled as a `TypeError` result, and the `try`/`catch` around each extractor turns it into an empty export list. The recursive helpers take a fuel bound, and running out of fuel stands for the stack overflow of a recursion on a cyclic tree.

The parsers themselves are function-typed parameters that return a tree or `None` when they throw:

- espree;
- typescript-estree;
- @babel/parser;
- Python's `ast.parse`.

The file system is an in-memory listing (`ProjectTree.FsItem`).

Each place where the source changes state step by step is a method with a loop, proved equal to a specification function:

- the `traverse` closures (`Walker.Visit` and `Walker.Traverse`, which keep the `processedNodes` set);
- the visitors that add to a Set or push to a list (`ExportSet.Collect` and `ExportSet.Gather`);
- the `for` loops of `scanDirectory`, `formatStructure`, `walk`, `parseArguments` and the Python scripts.

The properties are proved about those specification functions:

- the walk visits each reachable node once, in pre-order;
- the Set keeps first occurrences;
- every output name is truthy and unique;
- a thrown exception empties the file's list;
- the scan keys are distinct;
- the formatter renders the outline;
- the improved and fixed extractors return the same list for a file that the improved extractor does not send to typescript-estree (not .ts or .tsx, and its text lacks '<' or '>'), that espree parses as a module or script, that has no exported interface or type alias, and on which the fixed visitor does not throw. Every JSX file holds both '<' and '>', so JSX files are outside this result, and the two extractors do differ on them;
- and more, listed below.

## Model

| member | source | states |
|---|---|---|
| Ast.Prop | lib/ast-parser-fixed.js:119-122 | an unguarded read of a key throws exactly on null and undefined, and otherwise gives the key's value |
| Ast.Type | lib/parsers/jsx-parser.js:80 | an unguarded `.type` read throws exactly on null and undefined, and otherwise gives the node's tag |
| Ast.NameProp | lib/parsers/jsx-parser.js:42 | an unguarded `.name` read throws exactly on null and undefined |
| Ast.Items | lib/ast-parser-improved.js:138 | `forEach`/`map`/`some`/`filter` succeed exactly on arrays and throw on any other value |
| Ast.ChildrenOf | lib/parsers/ast-utils.js:20-29 | the `for...in` loop reaches only nodes of the arena |
| Ast.Show | lib/ast-parser-improved.js:252 | `join` prints a string item as itself |
| Walker.Walk | lib/parsers/ast-utils.js:11-30 | `traverse` only grows the `processedNodes` set |
| Walker.WalkList | lib/parsers/ast-utils.js:20-29 | the loop over a node's keys only grows the set |
| Walker.WalkSets | lib/parsers/ast-utils.js:11-30 | a walk hands each node to the visitor at most once, never one already processed, and the new set is the old one plus the visited nodes |
| Walker.WalkListSets | lib/parsers/ast-utils.js:20-29 | the same for the loop over children, and every child in the arena ends up processed |
| Walker.WalkClosed | lib/parsers/ast-utils.js:11-30 | the children of every visited node are processed after the walk |
| Walker.WalkListClosed | lib/parsers/ast-utils.js:20-29 | the same for the loop over children |
| Walker.WalkDiscovered | lib/parsers/ast-utils.js:11-30 | each visited node is the start or a child of a node visited before it (pre-order) |
| Walker.WalkListDiscovered | lib/parsers/ast-utils.js:20-29 | the same for the loop over children |
| Walker.PreOrderFacts | lib/parsers/ast-utils.js:11-30 | from a fresh set the visiting order has no repeats, contains the roots, is closed under children and is a pre-order |
| Walker.PreOrderReachableOnly | lib/parsers/ast-utils.js:11-30 | the order holds nothing outside any child-closed set that contains the roots |
| Walker.Visit | lib/ast-parser-improved.js:99-119 | the recursive traversal returns exactly the set and order of the specification walk |
| Walker.VisitAll | lib/ast-parser-improved.js:107-118 | the loop over keys and array items returns exactly the specification's set and order |
| Walker.Traverse | lib/parsers/ast-utils.js:11-30 | a traversal from an empty set gives the pre-order: no repeats, the roots included, closed under children |
| AstUtils.ExtractNodeName | lib/parsers/ast-utils.js:37-57 | a falsy node gives null, a truthy `name` is returned as is, and the only failure is the overflow of an endless chain |
| AstUtils.ExtractNodeNameFromArena | lib/parsers/ast-utils.js:37-57 | any non-null result is the `name` key of some node of the arena |
| AstUtils.ExtractNodeNameFuel | lib/parsers/ast-utils.js:47-54 | a name found with some recursion depth is found with any larger depth |
| AstUtils.ExtractNodeNameOfMember | lib/parsers/ast-utils.js:47-49 | `exports.foo` is named "foo" through its property |
| AstUtils.GetExportType | lib/parsers/ast-utils.js:77-81 | throws exactly on null or undefined; "default" and "all" exactly for their two node types |
| AstUtils.IsExportNode | lib/parsers/ast-utils.js:64-70 | a truthy node is an export node exactly when `getExportType` classifies it default or all, or it is an `ExportNamedDeclaration`; on an export node the type read cannot throw |
| AstUtils.ExportTypeOfExportNode | lib/parsers/ast-utils.js:64-81 | on an export node the type read cannot throw, and "named" means exactly an `ExportNamedDeclaration` |
| AstUtils.SetKeyLookup | lib/parsers/ast-utils.js:97-103 | assigning a key makes it read the new value and leaves every other key as it was |
| AstUtils.SpreadLookup | lib/parsers/ast-utils.js:102 | after `...metadata` a metadata key reads as in the metadata and any other key as before |
| AstUtils.CreateSymbol | lib/parsers/ast-utils.js:88-104 | the record starts with the keys name, type, exported, exportType in that order |
| AstUtils.CreateSymbolFields | lib/parsers/ast-utils.js:89-103 | each field is the option, or its default when the option is undefined, unless a metadata key of that name overrides it |
| AstUtils.Truthies | lib/parsers/ast-utils.js:112 | `.filter(Boolean)` keeps exactly the truthy values, in order |
| AstUtils.ExtractNames | lib/parsers/ast-utils.js:111-113 | the result has no repeats and holds exactly the truthy names |
| AstUtils.ExtractNamesOrder | lib/parsers/ast-utils.js:112 | the order is that of first occurrence among the truthy names |
| AstUtils.ExtractNamesIdempotent | lib/parsers/ast-utils.js:111-113 | extracting names twice changes nothing |
| AstUtils.ExtractNamesAppend | lib/enhanced-analyzer.js:24-25 | merging two lists before extracting keeps the first list's names first and adds only new names from the second |
| OrderedSet.Insert | lib/ast-parser-improved.js:135 | `Set.add` puts the value in; it either leaves the sequence unchanged or appends the value, and keeps it duplicate-free |
| OrderedSet.InsertAllFacts | lib/ast-parser-improved.js:138-142 | adding a run of values keeps the old contents as a prefix, holds exactly the old and the added values, and keeps no repeats |
| OrderedSet.DedupIsFirstOccurrences | lib/parsers/ast-utils.js:112 | `[...new Set(xs)]` equals an independent definition of first occurrences in order |
| OrderedSet.DedupFacts | lib/parsers/ast-utils.js:112 | the deduplicated sequence has no repeats and the same elements |
| OrderedSet.DedupOfNoDup | lib/parsers/ast-utils.js:112 | deduplicating what has no repeats changes nothing |
| OrderedSet.DedupIdempotent | lib/parsers/ast-utils.js:112 | deduplicating twice is deduplicating once |
| OrderedSet.DedupAppend | lib/enhanced-analyzer.js:24-25 | deduplicating a concatenation keeps the first part's result as a prefix and adds only what is new |
| Text.Join | lib/cli-utils.js:112 | joining no parts gives "" and one part gives that part |
| Text.Repeat | lib/ast-parser-improved.js:242 | `'  '.repeat(n)` has n times the length |
| Text.UpperAscii | lib/ast-parser-improved.js:166 | upper-casing moves 'a'..'z' to 'A'..'Z' and leaves other characters alone |
| Text.Capitalize | lib/ast-parser-improved.js:166 | the first character is upper-cased, the rest is kept, the length is unchanged |
| PathNames.StripTrailingSlashesSpec | lib/ast-parser-improved.js:165 | only trailing slashes are removed, all of them |
| PathNames.LastSegmentSpec | lib/ast-parser-improved.js:165 | the last segment is the longest slash-free suffix |
| PathNames.Base | lib/ast-parser-improved.js:165 | the base name is no longer than the path |
| PathNames.JoinPath | lib/enhanced-analyzer.js:60 | the base name of a joined directory entry is the entry's name |
| PathNames.BaseOfJoin | lib/enhanced-analyzer.js:60 | the same, stated for any directory and plain name |
| PathNames.LastDotSpec | lib/ast-parser-improved.js:14 | the index found holds a dot and no dot follows it |
| PathNames.ExtOfSpec | lib/ast-parser-improved.js:14 | the extension is a suffix of the base name that starts with its only dot |
| PathNames.ExtOf | lib/ast-parser-improved.js:14 | the extension is never longer than the base name, and a non-empty one leaves at least one character before it |
| PathNames.ExtOfName | lib/ast-parser-improved.js:14 | "stem.ext" has extension ".ext" and stem "stem" whatever dots the stem holds |
| PathNames.ExtOfJoin | lib/enhanced-analyzer.js:16 | `Ext` of a file joined onto a directory is the file name's extension |
| PathNames.ExtOfDoubleExtension | lib/ast-parser-improved.js:14 | only the part after the last dot counts: "archive.tar.gz" has ".gz" |
| PathNames.DotFileHasNoExt | lib/ast-parser-improved.js:14 | a name whose only dot is its first character has no extension |
| PathNames.ExtFromLastDot | lib/ast-parser-improved.js:14 | with a later dot the extension runs from the last dot to the end |
| PathNames.StemOfSpec | lib/ast-parser-improved.js:165 | stem and extension make up the base name |
| PathNames.StemOf | lib/ast-parser-improved.js:165 | stem and extension together have the base name's length, and a name with an extension has a non-empty stem |
| PathNames.DefaultExportName | lib/ast-parser-improved.js:165-166 | the anonymous default export name has the stem's length |
| PathNames.DefaultExportNameOfJoin | lib/ast-parser-improved.js:165-166 | `Stem` and the default export name: in "dir/widget.js" it is the stem with its first character upper-cased |
| PathNames.JsxExtensions | lib/ast-parser-improved.js:64 | of the accepted extensions `ext.includes('x')` holds exactly for ".jsx" and ".tsx" |
| ExportRules.DeclaratorNames | lib/ast-parser-improved.js:138-142 | succeeds exactly when no declarator is null or undefined, and then adds exactly the truthy `id.name`s of the declarators, in declarator order |
| ExportRules.SpecifierNames | lib/ast-parser-improved.js:147-153 | succeeds exactly when no specifier is null or undefined, and then adds exactly the truthy `exported.name`s, in specifier order |
| ExportRules.DeclarationNames | lib/ast-parser-improved.js:129-144 | a function, class, interface or type alias adds its truthy `id.name` or nothing; a variable declaration throws exactly when `declarations` is not an array or holds a null declarator, and otherwise adds its declarators' truthy names in order; anything else adds nothing |
| ExportRules.NamedExportNames | lib/ast-parser-improved.js:128-154 | succeeds exactly when the declaration part does and a truthy `specifiers` is an array without null entries; adds the declaration's names followed by the truthy exported names of the specifiers |
| ExportRules.DefaultExportNames | lib/ast-parser-improved.js:157-174 | adds nothing exactly when the declaration is falsy; a named function or class adds its `id.name`; any other truthy declaration (an interface or alias included) adds the capitalised file stem |
| ExportRules.GuardedKeyNames | lib/ast-parser-improved.js:182-188 | succeeds exactly when no property entry is null or undefined, and then adds exactly the truthy `key.name`s of the `Property` entries, in order; spread entries add nothing |
| ExportRules.UnguardedKeyNames | lib/ast-parser-fixed.js:124-130 | when the unguarded loop does not throw it adds exactly what the guarded one adds |
| ExportRules.GuardedCommonJsNames | lib/ast-parser-improved.js:177-197 | for `module.exports = {...}` the object's keys and nothing else; for any other assignment the `exports.x` name or nothing; throws only where the object loop throws |
| ExportRules.GuardedModuleExports | lib/ast-parser-improved.js:177-189 | adds nothing unless the assignment is `module.exports = <object literal>`; then it throws exactly when `properties` is not an array or holds a null entry, and otherwise adds the truthy `Property` key names in order |
| ExportRules.GuardedPropertyExport | lib/ast-parser-improved.js:192-197 | adds a name exactly when the left side is `exports.<p>` with a truthy `p.name`, and then that name alone |
| ExportRules.UnguardedObjectNames | lib/ast-parser-fixed.js:124-130 | throws on a null or undefined right side; on an object literal that does not throw adds the truthy `Property` key names in order; any other right side adds nothing |
| ExportRules.UnguardedCommonJsNames | lib/ast-parser-fixed.js:119-139 | when the unguarded reads do not throw, the fixed visitor adds exactly what the guarded one adds |
| ExportRules.NamesAtMembers | lib/ast-parser-improved.js:138-153 | a name is kept from a declarator or specifier list exactly when some entry has a truthy `name` under the key |
| ExportRules.PropertyKeysMembers | lib/ast-parser-improved.js:182-188 | a key is kept from an object literal exactly when some `Property` entry has a truthy `key.name` |
| ExportRules.ModuleExportsObjectKeys | lib/ast-parser-improved.js:177-189 | `module.exports = {a, b, ...rest}` adds exactly "a" and "b", in order, and the fixed visitor's unguarded object loop adds the same |
| ExportSet.Added | lib/parsers/typescript-parser.js:31-127 | pushing succeeds exactly when no visitor call throws |
| ExportSet.AccumulateIsDedup | lib/ast-parser-improved.js:87-93 | `Accumulate`, the Set after the visits, is the starting Set with everything the calls added inserted in visiting order, or the first exception |
| ExportSet.AddedMembers | lib/parsers/typescript-parser.js:31-127 | a record is in the list exactly when some visitor call pushed it |
| ExportSet.Collected | lib/ast-parser-improved.js:87-93 | from an empty Set: no repeats, and exactly the names some visit added |
| ExportSet.AccumulateCrash | lib/ast-parser-fixed.js:144-148 | one visitor call that throws makes the whole collection throw |
| ExportSet.AccumulateAgree | lib/ast-parser-fixed.js:69-141 | two visitors that agree on every visited node collect the same Set |
| ExportSet.Collect | lib/ast-parser-fixed.js:69-143 | the traversal with a Set-adding visitor equals the specification fold over the pre-order |
| ExportSet.Gather | lib/parsers/typescript-parser.js:31-127 | the traversal with a list-pushing visitor equals the specification fold over the pre-order |
| ImprovedParser.NodeExports | lib/ast-parser-improved.js:124-198 | an `ExportNamedDeclaration` adds its named-export names, an `ExportDefaultDeclaration` its default name, an `AssignmentExpression` its CommonJS names, every other node nothing; every name is truthy or the capitalised file stem |
| ImprovedParser.Exports | lib/ast-parser-improved.js:11-52 | an unreadable file or an unaccepted extension gives [] |
| ImprovedParser.ExportsFacts | lib/ast-parser-improved.js:11-52 | the result has no repeats and no falsy name |
| ImprovedParser.TreeNamesTruthy | lib/ast-parser-improved.js:87-93 | with an accepted extension a successful walk collects only truthy names |
| ImprovedParser.TreeExports | lib/ast-parser-improved.js:87-93 | the walk succeeds exactly when no visited node's rule throws, and the Set it fills has no repeats |
| ImprovedParser.EspreeTree | lib/ast-parser-improved.js:57-85 | no tree exactly when both the module and the script parse throw; the module parse wins when it succeeds |
| ImprovedParser.EspreeExports | lib/ast-parser-improved.js:57-94 | no espree tree gives []; a successful walk has no repeats |
| ImprovedParser.Outcome | lib/ast-parser-improved.js:21-47 | a file for which `UsesTsParser` is false (not .ts or .tsx, and its text lacks '<' or '>') gets exactly the espree answer; an exception escapes only from the espree fallback; the result has no repeats |
| ImprovedParser.StemIsNamed | lib/ast-parser-improved.js:165-166 | with an accepted extension the capitalised stem is not empty |
| ImprovedParser.TryEspreeParser | lib/ast-parser-improved.js:57-94 | module parse, then script parse, then the Set of the walk, or [] when both parses throw |
| ImprovedParser.ExtractExports | lib/ast-parser-improved.js:11-52 | the method returns the specification's result |
| ImprovedParser.TreeExportsMembers | lib/ast-parser-improved.js:99-119 | a name is collected exactly when the visitor added it at some visited node |
| ImprovedParser.EspreeCallsUsed | lib/ast-parser-improved.js:57-85 | only the module parse, and the script parse after it fails, decide the espree route |
| ImprovedParser.LadderExhausted | lib/ast-parser-improved.js:25-47 | when typescript-estree is unused or fails and both espree parses fail, the file yields nothing |
| ImprovedParser.TsParserDecides | lib/ast-parser-improved.js:25-39 | a successful typescript-estree walk decides the result, whatever espree would do |
| ImprovedParser.AnalyzeProject | lib/ast-parser-improved.js:267-270 | the text is the formatted scan with the default skip list |
| ImprovedParser.ScannedFileNames | lib/ast-parser-improved.js:207-232 | a reached file that is not overwritten is listed with names that have no repeats and no falsy value |
| FixedParser.FixedNode | lib/ast-parser-fixed.js:70-140 | the same dispatch as the improved visitor but with the fixed rules (no interfaces or type aliases, unguarded CommonJS reads); every name is truthy or the capitalised file stem |
| FixedParser.Exports | lib/ast-parser-fixed.js:11-149 | an unreadable file or an unaccepted extension gives [] |
| FixedParser.ExtractExports | lib/ast-parser-fixed.js:11-149 | the method returns the specification's result |
| FixedParser.ParseLadder | lib/ast-parser-fixed.js:33-64 | module parse, then script parse, then (for .ts and .tsx) script parse of the stripped text |
| FixedParser.LadderTree | lib/ast-parser-fixed.js:33-64 | when espree parses the text as a module or script, or the file is not .ts or .tsx, the ladder gives the improved extractor's espree tree; otherwise only the script parse of the stripped text can give one |
| FixedParser.TreeExports | lib/ast-parser-fixed.js:69-143 | the walk succeeds exactly when no visited node's rule throws, and the Set it fills has no repeats |
| FixedParser.ExportsFacts | lib/ast-parser-fixed.js:11-149 | the result has no repeats and no falsy name |
| FixedParser.StripUsedOnlyForTs | lib/ast-parser-fixed.js:44-58 | the stripped text matters only for TypeScript files whose two plain parses fail |
| FixedParser.NodeAgrees | lib/ast-parser-fixed.js:72-139 | where the fixed visitor does not throw, it adds what the improved one adds, except at exported interfaces and type aliases |
| FixedParser.NamedWithoutTs | lib/ast-parser-fixed.js:74-75 | without a TypeScript declaration both named-export rules add the same names |
| FixedParser.TreeAgrees | lib/ast-parser-fixed.js:69-141 | over a tree without exported interfaces or type aliases, both visitors fill the same Set |
| FixedParser.VariantsAgree | lib/ast-parser-fixed.js:11-149 | for a file not sent to typescript-estree that espree parses, without exported interfaces or type aliases, on which the fixed visitor does not throw, both extractors return the same list |
| FixedParser.ExportedInterface | lib/ast-parser-fixed.js:74-75 | `export interface User {}` is named by the improved visitor only |
| FixedParser.AssignmentWithoutLeft | lib/ast-parser-fixed.js:119-120 | an assignment node without `left` throws in the fixed visitor and adds nothing in the improved one |
| FixedParser.AnalyzeProject | lib/ast-parser-fixed.js:218-221 | the text is the formatted scan with the default skip list |
| FixedParser.ScannedFileNames | lib/ast-parser-fixed.js:158-183 | a reached file that is not overwritten is listed with names that have no repeats and no falsy value |
| TsParser.Keyword | lib/parsers/typescript-parser.js:150-152 | exactly the string, number and boolean keyword types have a printed name |
| TsParser.TypeAnnotation | lib/parsers/typescript-parser.js:145-157 | a falsy annotation is "any"; a truthy one prints as its `typeAnnotation` node |
| TsParser.TypeNode | lib/parsers/typescript-parser.js:148-156 | throws on a null or undefined node; keywords print their names, a reference its unguarded `typeName.name`, an array something ending in "[]" (exactly stated by `ArrayTypePrinted`), anything else "unknown" |
| TsParser.TypeAnnotationFuel | lib/parsers/typescript-parser.js:145-157 | a result found with some recursion depth is found with any larger depth |
| TsParser.TypeNodeFuel | lib/parsers/typescript-parser.js:153 | the same for the switch and its array case |
| TsParser.ArrayElementThrows | lib/parsers/typescript-parser.js:153 | an array type whose element node has no `typeAnnotation` key throws |
| TsParser.StringArrayThrows | lib/parsers/typescript-parser.js:153 | `string[]` as typescript-estree gives it throws |
| TsParser.TypeDefinition | lib/parsers/typescript-parser.js:159-170 | a falsy node is "unknown", keywords print their names, other non-unions "complex"; a union whose `types` is not an array throws, and otherwise prints its members' definitions joined by " \| " |
| TsParser.Definitions | lib/parsers/typescript-parser.js:164 | succeeds exactly when every member's definition succeeds, and then entry k is the k-th member's definition |
| TsParser.KeywordDefinitions | lib/parsers/typescript-parser.js:164 | a list of keyword members prints as their names |
| TsParser.UnionOfKeywords | lib/parsers/typescript-parser.js:163-164 | a union of keywords prints as their names joined by " \| " |
| TsParser.MemberRecords | lib/parsers/typescript-parser.js:133-142 | one record per property signature, and success means no member is null or undefined |
| TsParser.MemberRecordsSpec | lib/parsers/typescript-parser.js:135-139 | record k holds the name, the printed annotation and the `optional` of the k-th property signature |
| TsParser.InterfaceProperties | lib/parsers/typescript-parser.js:130-143 | a falsy body or body list gives []; otherwise the records are `MemberRecords` of the body list, one per property signature, and a truthy non-array body list throws |
| TsParser.VariableRecords | lib/parsers/typescript-parser.js:65-73 | succeeds exactly when no declarator is null, and then holds one variable record per truthy declarator `id.name`, in order |
| TsParser.SpecifierRecords | lib/parsers/typescript-parser.js:78-88 | succeeds exactly when no specifier is null, and then holds one re-export record per truthy `exported.name`, in order |
| TsParser.DeclarationRecords | lib/parsers/typescript-parser.js:37-75 | an interface gives `Interface(id.name, InterfaceProperties(body))`, an alias `TypeAlias(id.name, TypeDefinition(typeAnnotation))`, a function or class the non-default function or class record named `id.name`; each throws without an id; a variable declaration gives `VariableRecords` of its declarators and throws when `declarations` is not an array; any other declaration gives no record |
| TsParser.DefaultRecords | lib/parsers/typescript-parser.js:92-111 | a falsy declaration gives nothing; a function or class default gives the function or class record marked default, named by its truthy `id.name` or else "default"; any other truthy declaration gives the `default` record |
| TsParser.ArrayTypePrinted | lib/parsers/typescript-parser.js:153 | an array type prints its element's annotation followed by "[]", and an exception while printing the element escapes |
| TsParser.NodeRecords | lib/parsers/typescript-parser.js:36-111 | a named export pushes its declaration's records followed by its specifiers' re-export records; a default export pushes its default record; other nodes push nothing |
| TsParser.Parse | lib/parsers/typescript-parser.js:8-25 | a parse failure gives [] |
| TsParser.ExtractExports | lib/parsers/typescript-parser.js:27-128 | the method returns the specification's records |
| TsParser.ParseFile | lib/parsers/typescript-parser.js:8-25 | the method returns the specification's result |
| TsParser.RecordsFromNodes | lib/parsers/typescript-parser.js:31-127 | a record is listed exactly when the visit of some node pushed it |
| TsParser.TreeRecords | lib/parsers/typescript-parser.js:27-128 | the visit succeeds exactly when no visited node's rule throws |
| TsParser.ArrayPropertyInterfaceThrows | lib/parsers/typescript-parser.js:38-44 | an interface with a `string[]` property throws while printing it |
| TsParser.ArrayPropertyEmptiesFile | lib/parsers/typescript-parser.js:21-24 | such an exported interface anywhere in the file empties the file's whole result |
| TsParser.NamedArrayPropertyThrows | lib/parsers/typescript-parser.js:36-44 | the named export holding such an interface throws |
| TsParser.MembersThrow | lib/parsers/typescript-parser.js:133-139 | one keyed property signature whose annotation throws makes the whole list throw, whatever the other members are |
| TsParser.AnonymousDefaultFunction | lib/parsers/typescript-parser.js:98 | `export default function () {}` is named "default" |
| TsParser.DuplicatesKept | lib/parsers/typescript-parser.js:79-87 | two specifiers with one name give two records |
| JsxParser.Check | lib/parsers/jsx-parser.js:112-126 | falsy is false, JSX elements and fragments are true, a return looks at its argument, a conditional or logical expression at either branch, a block at its statements, anything else is false |
| JsxParser.CheckSome | lib/parsers/jsx-parser.js:117 | `some` is true only when some statement qualifies and false only when none does, and it is true when one qualifies and none throws |
| JsxParser.ReturnsJsx | lib/parsers/jsx-parser.js:109-129 | a falsy body does not return JSX |
| JsxParser.NestedReturnNotSeen | lib/parsers/jsx-parser.js:116-118 | a `return <div/>` inside an `if` is not seen |
| JsxParser.DirectReturnSeen | lib/parsers/jsx-parser.js:115-118 | the same return directly in a block is seen |
| JsxParser.PropInfos | lib/parsers/jsx-parser.js:143-146 | one prop per pattern entry, named by its key with type "unknown"; fails exactly on a null entry or one without a key |
| JsxParser.FirstParam | lib/parsers/jsx-parser.js:139-141 | the first parameter of an array, none when it is empty |
| JsxParser.ExtractProps | lib/parsers/jsx-parser.js:138-150 | falsy params, an empty list, or a first parameter that is not an object pattern give []; every prop type is "unknown" |
| JsxParser.RestPropThrows | lib/parsers/jsx-parser.js:144 | a rest element in the pattern throws |
| JsxParser.ExtendsReactComponent | lib/parsers/jsx-parser.js:152-166 | throws on a null node; true exactly for `Component`, `PureComponent` or `React.` either of them |
| JsxParser.ClassMethods | lib/parsers/jsx-parser.js:171-176 | succeeds exactly when no member is null and every method definition has a key; entry k is the `{key.name, kind}` of the k-th `MethodDefinition` member, in order |
| JsxParser.ExtractClassMethods | lib/parsers/jsx-parser.js:168-177 | a null body throws; a falsy `body` gives []; a truthy non-array `body` throws; otherwise one `{key.name, kind}` entry per `MethodDefinition`, in order |
| JsxParser.GetComponentName | lib/parsers/jsx-parser.js:131-136 | throws exactly on null; a function with an id is named by it, everything else "Anonymous" |
| JsxParser.DeclaratorComponents | lib/parsers/jsx-parser.js:49-62 | one named-export component per declarator whose `init` is an arrow or function expression whose body returns JSX, in order, named by its `id.name` with the init's props |
| JsxParser.DeclarationComponents | lib/parsers/jsx-parser.js:38-63 | a function declaration gives a component exactly when its body returns JSX, named by its `id.name` with its props; a variable declaration gives its declarators' components; other declarations give none |
| JsxParser.FindByName | lib/parsers/jsx-parser.js:69 | `find` gives the first record with that name, or none when there is none |
| JsxParser.MarkSpecifiers | lib/parsers/jsx-parser.js:67-75 | record k is marked named-exported exactly when `find` by some specifier's `local.name` picks record k; every other record is unchanged |
| JsxParser.Step | lib/parsers/jsx-parser.js:33-102 | a named export appends its declaration's components and then marks the specifiers' records; a default export throws on a null declaration and appends one default component exactly for a function declaration that returns JSX, named by its id or "default"; other nodes change nothing |
| JsxParser.Run | lib/parsers/jsx-parser.js:32-105 | visits never drop records, and every earlier record keeps its place, name and props (later visits only append or mark) |
| JsxParser.RunAppend | lib/parsers/jsx-parser.js:32-105 | visiting one run of nodes and then another is visiting their concatenation |
| JsxParser.RunWithoutExports | lib/parsers/jsx-parser.js:37-90 | visiting nodes none of which is an export declaration changes nothing |
| JsxParser.TreeComponents | lib/parsers/jsx-parser.js:28-107 | a tree without export declarations has no components, and every component found is exported |
| JsxParser.Parse | lib/parsers/jsx-parser.js:8-25 | a parse failure gives [] |
| JsxParser.RunExported | lib/parsers/jsx-parser.js:28-107 | every record is marked exported |
| JsxParser.StepExported | lib/parsers/jsx-parser.js:37-90 | one visit keeps every record exported |
| JsxParser.SpecifiersNeverCreate | lib/parsers/jsx-parser.js:67-75 | the specifier pass never adds a record |
| JsxParser.DefaultNeedsFunctionDeclaration | lib/parsers/jsx-parser.js:79-90 | a default export that is not a function declaration adds nothing |
| JsxParser.DefaultThenSpecifier | lib/parsers/jsx-parser.js:69-73 | `export default function App` then `export { App }` switches the record to a named export |
| JsxParser.ExtractComponents | lib/parsers/jsx-parser.js:28-107 | the method returns the specification's records |
| JsxParser.VisitNode | lib/parsers/jsx-parser.js:37-90 | the visitor body returns the specification's step |
| EnhancedAnalyzer.RecordName | lib/parsers/typescript-parser.js:103-108 | the `default` record is named "default"; every other record keeps its name |
| EnhancedAnalyzer.RecordNames | lib/enhanced-analyzer.js:20 | the names of the records, one each, in order |
| EnhancedAnalyzer.ComponentNames | lib/enhanced-analyzer.js:22 | the names of the components, one each, in order |
| EnhancedAnalyzer.PythonNames | lib/enhanced-analyzer.js:38 | the Python names as strings, one each, in order |
| EnhancedAnalyzer.Exports | lib/enhanced-analyzer.js:15-44 | .ts, .tsx and .jsx give the distinct truthy names of the parser records; .py gives the script's names as they are; anything else gives the legacy extractor's answer |
| EnhancedAnalyzer.TsxMerge | lib/enhanced-analyzer.js:21-25 | in a .tsx file the TypeScript names come first and a component already named is not repeated |
| EnhancedAnalyzer.PythonDuplicatesKept | lib/enhanced-analyzer.js:37-40 | a Python file that assigns `x` twice lists it twice |
| EnhancedAnalyzer.ReadFailureStoresEmpty | lib/enhanced-analyzer.js:68-75 | an unreadable file is listed with no exports and its siblings are still scanned |
| EnhancedAnalyzer.EnhancedSkipsMore | lib/enhanced-analyzer.js:53 | the longer skip list only removes directories, and "venv" is one of them |
| EnhancedAnalyzer.AnalyzeProject | lib/enhanced-analyzer.js:46-109 | the structure itself with `returnObject`, and its formatted text otherwise |
| ProjectTree.Keys | lib/enhanced-analyzer.js:54 | the keys of the result object, in insertion order |
| ProjectTree.KeyIndex | lib/enhanced-analyzer.js:65 | the place of a key, the first place it occurs |
| ProjectTree.Put | lib/enhanced-analyzer.js:71 | `result[key] = value` keeps an old key's place, adds a new key last, stores the value and keeps every other entry |
| ProjectTree.Replaced | lib/enhanced-analyzer.js:71 | overwriting a present key keeps the keys and every other entry |
| ProjectTree.Appended | lib/enhanced-analyzer.js:71 | a new key goes last |
| ProjectTree.Reached | lib/enhanced-analyzer.js:59-61 | the loop stops at the first entry whose `statSync` throws |
| ProjectTree.Scan | lib/enhanced-analyzer.js:53-83 | the scanned object has distinct keys |
| ProjectTree.ScanItems | lib/enhanced-analyzer.js:59-77 | the loop keeps keys distinct |
| ProjectTree.Step | lib/enhanced-analyzer.js:60-76 | one turn stores the entry under its key when it is recorded and keeps every other entry |
| ProjectTree.Stored | lib/enhanced-analyzer.js:63-75 | a directory is stored under its name and '/', a file under its name |
| ProjectTree.ScanDirectory | lib/ast-parser-improved.js:207-232 | the method returns the specification's object |
| ProjectTree.ScanListing | lib/enhanced-analyzer.js:57-77 | the loop with its recursive calls returns the specification's object |
| ProjectTree.StatFailureEndsListing | lib/enhanced-analyzer.js:61 | entries after a `statSync` failure are never looked at and those before it stay |
| ProjectTree.ScanKeys | lib/enhanced-analyzer.js:59-77 | a key is present exactly when a reached entry records it |
| ProjectTree.SkippedNotDescended | lib/enhanced-analyzer.js:64 | the contents of a skipped directory make no difference |
| ProjectTree.EntryKept | lib/enhanced-analyzer.js:59-77 | an entry stays when no later entry uses its key |
| ProjectTree.FileRecorded | lib/enhanced-analyzer.js:68-75 | a reached file is listed with the export list of its joined path and its text |
| ProjectTree.ScanWellKeyed | lib/enhanced-analyzer.js:65 | with plain names, a key ends with '/' exactly when it holds a nested object |
| ProjectTree.Texts | lib/enhanced-analyzer.js:97 | one printed text per value |
| ProjectTree.Label | lib/enhanced-analyzer.js:92-99 | a line starts with its key |
| ProjectTree.Outline | lib/enhanced-analyzer.js:85-105 | at least one line per entry, none shallower than the current depth |
| ProjectTree.EntryOutline | lib/enhanced-analyzer.js:90-100 | an entry's own line comes first, at its depth |
| ProjectTree.RenderAppend | lib/enhanced-analyzer.js:89-102 | rendering a concatenation is concatenating the renderings |
| ProjectTree.FormatRendersOutline | lib/enhanced-analyzer.js:85-105 | `Format` is the outline rendered line by line, two spaces per level |
| ProjectTree.EntryRendersOutline | lib/enhanced-analyzer.js:90-100 | `EntryText` is one entry's outline rendered |
| ProjectTree.FormatStructure | lib/ast-parser-improved.js:240-260 | the method returns the specification's text |
| ProjectTree.FormatEntry | lib/enhanced-analyzer.js:90-100 | one loop turn appends the specification's text |
| ProjectTree.FileLineExample | lib/enhanced-analyzer.js:97 | a file with two exports one level deep prints "  - index.js: a, b" |
| ProjectTree.FormatExample | lib/enhanced-analyzer.js:85-105 | a small project prints directory, nested file and plain file in order |
| Cli.UserArgs | lib/cli-utils.js:14 | the arguments after the first two |
| Cli.ParseArguments | lib/cli-utils.js:13-42 | the loop gives the specification's options |
| Cli.LastPositional | lib/cli-utils.js:35-38 | the last argument not starting with '-', none when every argument does |
| Cli.ParseWithoutFormat | lib/cli-utils.js:24-39 | without `--format` each flag of `Parse` is set exactly when it appears, and the target is the last positional argument |
| Cli.ParsePlainStep | lib/cli-utils.js:24-39 | an argument other than `--format` is one step of the loop |
| Cli.PlainStepFlags | lib/cli-utils.js:27-38 | one argument sets the flag it spells and only that one |
| Cli.FormatTakesFlag | lib/cli-utils.js:31-32 | `-f --help` asks for a format called "--help" and no help |
| Cli.FormatDefaults | lib/cli-utils.js:32 | a missing or empty format value gives "tree" |
| Cli.Walk | lib/cli-utils.js:100-110 | the walk appends the specification's lines |
| Cli.WalkEntry | lib/cli-utils.js:102-108 | one turn appends one entry's lines |
| Cli.SimpleList | lib/cli-utils.js:98-112 | the "simple" text is the lines joined by newlines |
| Cli.Indented | lib/cli-utils.js:103 | one indented line per outline line |
| Cli.IndentedAppend | lib/cli-utils.js:100-110 | indenting a concatenation is concatenating the indentations |
| Cli.SimpleFollowsOutline | lib/cli-utils.js:100-110 | `SimpleLines` shows the tree format's lines in the same order, without "- " |
| Cli.SimpleEntryFollowsOutline | lib/cli-utils.js:102-108 | `SimpleEntry` does the same for one entry |
| Cli.EmptyNameDiffers | lib/cli-utils.js:106-107 | a list that joins to "" shows ": " in the tree format but not in the simple list |
| PythonSymbols.TargetNamesSpec | lib/parsers/python-parser.js:47-50 | an assignment reports exactly its public `Name` targets |
| PythonSymbols.StatementNamesSpec | lib/parsers/python-parser.js:40-50 | `StatementNames` reports the public name a statement defines or the public names it assigns |
| PythonSymbols.TopLevelNamesSpec | lib/parsers/python-parser.js:39-50 | `TopLevelNames` reports exactly what the top-level statements report |
| PythonSymbols.ParseSync | lib/parsers/python-parser.js:13-86 | a parse failure gives [] |
| PythonSymbols.AssignedNames | lib/parsers/python-parser.js:47-50 | the target loop returns the specification's names |
| PythonSymbols.ExtractStatement | lib/parsers/python-parser.js:40-50 | one statement's turn returns the specification's names |
| PythonSymbols.ExtractTopLevel | lib/parsers/python-parser.js:39-50 | the loop over the module body returns the specification's names |
| PythonSymbols.TopLevelNamesAppend | lib/parsers/python-parser.js:39-50 | names are appended in statement order, never merged |
| PythonSymbols.NestedIgnored | lib/parsers/python-parser.js:38-39 | what is nested inside a statement changes nothing |
| PythonSymbols.DuplicatesKept | lib/parsers/python-parser.js:46-50 | two assignments to `x` report it twice |
| PythonSymbols.VariableSymbols | lib/parsers/temp/python_parser.py:37-45 | one variable symbol per name, with the node's line |
| PythonSymbols.NodeSymbolsSpec | lib/parsers/temp/python_parser.py:14-45 | `NodeSymbols` reports a public function, a public class, or the public `Name` targets of a column-0 assignment |
| PythonSymbols.CoveredStep | lib/parsers/temp/python_parser.py:12 | one step of the breadth-first walk keeps what is still to be reached |
| PythonSymbols.Bfs | lib/parsers/temp/python_parser.py:12 | the walk yields as many nodes as the queued trees hold, so each node once |
| PythonSymbols.BfsReachesAll | lib/parsers/temp/python_parser.py:12 | `Bfs` (`ast.walk`) reaches exactly the nodes below the queued ones |
| PythonSymbols.AllSymbolsSpec | lib/parsers/temp/python_parser.py:12-45 | `AllSymbols` lists a symbol exactly when a visited node reports it |
| PythonSymbols.WalkSymbols | lib/parsers/temp/python_parser.py:49-52 | a parse failure gives [] |
| PythonSymbols.ExtractSymbols | lib/parsers/temp/python_parser.py:12-45 | the loop returns the specification's symbols |
| PythonSymbols.WalkReports | lib/parsers/temp/python_parser.py:12-45 | a symbol is listed exactly when some node of the tree, at any depth, reports it |
| PythonSymbols.MethodSeenOnlyByWalk | lib/parsers/temp/python_parser.py:12-22 | a method is reported by the walking script and not by the top-level one |
| PythonSymbols.AssignmentsFiltered | lib/parsers/temp/python_parser.py:34-38 | an indented assignment and a tuple target report nothing |

## Left out

- The foreign parsers (espree, typescript-estree, @babel/parser and Python's `ast.parse`) are parameters, and so are their trees' shapes. estraverse is modelled with the same key-order walk as `traverse`. Its own per-type key order and its exception on unknown node types are not modelled.
- FixedParser.ParseLadder: the chain of five regular-expression replacements at lib/ast-parser-fixed.js:46-51 is a `Stripper` parameter, not modelled.
- The file system is an in-memory listing. `readdirSync`, `statSync` and `readFileSync` failures are constructors of `FsItem`. `path.relative`, whose result the scans never use, is not modelled.
- PathNames.JoinPath: `path.join` is modelled as concatenation with '/' and does not normalise "." and ".." segments.
- Cli.ParseArguments: `process.cwd()` and `path.resolve` are parameters.
- PythonSymbols.ParseSync: the temporary files, the `python3` subprocess, its 5-second timeout and the JSON round trip are left out. A subprocess failure of any kind is modelled like a parse failure, as [].
- PythonSymbols.PyNode keeps only the statements and their nesting. Expression subtrees are dropped because they hold no definition or assignment statement.
- Console output (`console.warn`, `console.log`, `displayHelp`, `handleError`, `process.exit`) is left out. So are the JSON and tree branches of `formatOutput` that only print. `validateDirectory`, `getVersion`, `generateCompatibilityReport` and `displayCompatibilityScore` are left out for the same reason: they only read the environment or print constants.
- EnhancedAnalyzer.Exports: lib/ast-parser.js is not part of this model. Its `extractExports` is the `legacy` parameter.
- Text.UpperAscii: `toUpperCase` is modelled for ASCII letters only.
- Object keys keep insertion order. JavaScript lists integer-like keys ("1", "42") first, and that is not modelled.
- ProjectTree.Format tells a directory from a file by the kind of value, not by `name.endsWith('/')` (lib/enhanced-analyzer.js:92). ProjectTree.ScanWellKeyed proves that the two tests agree on every scan whose listing names hold no '/'.
- Cli.SimpleLines and Cli.SimpleEntry make the same choice: the source tests `key.endsWith('/')`, and it prints a value that is not an array as '' (lib/cli-utils.js:102-107). The model decides by the kind of entry, so a key and value that disagree are not modelled. ProjectTree.ScanWellKeyed bridges the gap for every scanned structure.
- AstUtils.CreateSymbol: spreading a `metadata` value that is not a plain object (a string, an array) is not modelled. Null and undefined spread nothing.
- Array identity is modelled as value equality. The `processedNodes` sets track nodes only, so the difference is never observed.
- AstUtils.ExtractNodeName, TsParser.TypeAnnotation, TsParser.TypeDefinition and JsxParser.Check take fuel (the arena size plus one). Running out of fuel stands for the stack overflow of a recursion on a cyclic tree. Stack depth limits on acyclic trees are not modelled.
