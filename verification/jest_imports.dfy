/**
 * The text transformation of the `@jest/globals` import script: find which
 * Jest globals a test file uses and insert one `import { ... } from
 * '@jest/globals';` line after its last import. Reading and writing the file
 * and the console messages are left out; a file is its content string.
 */
module JestImports {
  import opened Basics
  import opened Strings

  const JestGlobalsModule := "@jest/globals"

  /** The globals the script looks for, in the order it looks for them. */
  const Globals: seq<string> :=
    ["describe", "it", "test", "expect", "beforeEach", "afterEach", "beforeAll", "afterAll", "jest"]

  /** The text whose presence marks a global as used: `describe(`, ..., `jest.`. */
  function Token(name: string): string {
    if name == "jest" then "jest." else name + "("
  }

  /** The global names are distinct and contain no line break. */
  lemma GlobalsWellFormed()
    ensures NoDuplicates(Globals)
    ensures forall k :: 0 <= k < |Globals| ==> '\n' !in Globals[k]
  {
  }

  /** Where `name` sits in the fixed list. */
  function Position(name: string): (p: nat)
    requires name in Globals
    ensures p < |Globals| && Globals[p] == name
  {
    FirstIndex(Globals, name)
  }

  /** The global `name` is used in `content`: its token occurs there. */
  predicate Uses(content: string, name: string) {
    Contains(content, Token(name))
  }

  /**
   * The names among `names[i..]` that pass `used`, in list order: the body
   * of `detectJestGlobals` before duplicates are removed.
   */
  function Collect(names: seq<string>, used: string -> bool, i: nat): (r: seq<string>)
    requires NoDuplicates(names) && i <= |names|
    ensures forall k :: 0 <= k < |r| ==> r[k] in names && i <= FirstIndex(names, r[k])
    ensures forall a, b :: 0 <= a < b < |r| ==> FirstIndex(names, r[a]) < FirstIndex(names, r[b])
    ensures forall j :: i <= j < |names| ==> (names[j] in r <==> used(names[j]))
    decreases |names| - i
  {
    if i == |names| then []
    else
      var rest := Collect(names, used, i + 1);
      var g := names[i];
      FirstIndexOfDistinct(names, i);
      assert g !in rest;
      if used(g) then
        var r := [g] + rest;
        assert forall k :: 0 < k < |r| ==> r[k] == rest[k - 1];
        assert forall x :: x in r <==> x == g || x in rest;
        r
      else
        rest
  }

  /** `[...new Set(s)]`: the same elements, each once (the only input it gets is already duplicate-free). */
  function Dedup(s: seq<string>): (r: seq<string>)
    ensures forall x :: x in r <==> x in s
    ensures NoDuplicates(r)
  {
    if |s| == 0 then []
    else
      var d := Dedup(s[..|s| - 1]);
      assert s == s[..|s| - 1] + [s[|s| - 1]];
      if s[|s| - 1] in d then d else d + [s[|s| - 1]]
  }

  /** Removing duplicates from a sequence without any changes nothing. */
  lemma {:induction false} DedupOfDistinct(s: seq<string>)
    requires NoDuplicates(s)
    ensures Dedup(s) == s
  {
    if |s| > 0 {
      var init := s[..|s| - 1];
      DedupOfDistinct(init);
      assert s[|s| - 1] !in init;
      assert s == init + [s[|s| - 1]];
    }
  }

  /**
   * `detectJestGlobals(content)`: exactly the globals whose token occurs in
   * the content, in the order of the fixed list, each once.
   */
  function DetectJestGlobals(content: string): (r: seq<string>)
    ensures forall n :: n in r <==> n in Globals && Contains(content, Token(n))
    ensures forall k :: 0 <= k < |r| ==> r[k] in Globals
    ensures forall a, b :: 0 <= a < b < |r| ==> Position(r[a]) < Position(r[b])
    ensures NoDuplicates(r)
  {
    GlobalsWellFormed();
    var used := Collect(Globals, name => Uses(content, name), 0);
    assert NoDuplicates(used);
    DedupOfDistinct(used);
    assert forall n :: n in Globals ==> (n in used <==> Contains(content, Token(n))) by {
      forall n | n in Globals
        ensures n in used <==> Contains(content, Token(n))
      {
        assert Globals[Position(n)] == n;
        assert (name => Uses(content, name))(n) == Contains(content, Token(n));
      }
    }
    Dedup(used)
  }

  /** A line the script counts as an import: `line.trim().startsWith('import ')` without `@jest/globals`. */
  predicate IsImportLine(line: string) {
    StartsWith(Trim(line), "import ") && !Contains(line, JestGlobalsModule)
  }

  /** The index of the last import line, or -1 when there is none. */
  function LastImportIndex(lines: seq<string>): (r: int)
    ensures -1 <= r < |lines|
    ensures r >= 0 ==> IsImportLine(lines[r])
    ensures forall j :: r < j < |lines| ==> !IsImportLine(lines[j])
  {
    if |lines| == 0 then -1
    else if IsImportLine(lines[|lines| - 1]) then |lines| - 1
    else LastImportIndex(lines[..|lines| - 1])
  }

  /**
   * Where the new line goes: right after the last import line, or after the
   * first line when there is no import at all (`splice` clamps to the length).
   */
  function InsertionPoint(lines: seq<string>): (at: nat)
    ensures at <= |lines|
    ensures (exists j :: 0 <= j < |lines| && IsImportLine(lines[j])) ==>
              && 0 < at
              && IsImportLine(lines[at - 1])
              && forall j :: at <= j < |lines| ==> !IsImportLine(lines[j])
    ensures (forall j :: 0 <= j < |lines| ==> !IsImportLine(lines[j])) ==> at == Min(1, |lines|)
  {
    var last := LastImportIndex(lines);
    var index := if last == -1 then 0 else last;
    assert last != -1 ==> Min(index + 1, |lines|) == last + 1;
    Min(index + 1, |lines|)
  }

  /** The text after the imported names: ` } from '@jest/globals';`. */
  const ImportTail := " } from '" + JestGlobalsModule + "';"

  /**
   * `import { g1, g2, ... } from '@jest/globals';`: the detected globals,
   * joined by `", "`, between `import { ` and the tail naming the module.
   */
  function ImportStatement(globals: seq<string>): (r: string)
    ensures r == "import { " + Join(globals, ", ") + ImportTail
    ensures Contains(r, JestGlobalsModule)
    ensures forall k :: 0 <= k < |globals| ==> Contains(r, globals[k])
    ensures StartsWith(r, "import { ")
    ensures (forall k :: 0 <= k < |globals| ==> '\n' !in globals[k]) ==> '\n' !in r
  {
    var list := Join(globals, ", ");
    var r := "import { " + list + ImportTail;
    assert r == "import { " + list + " } from '" + JestGlobalsModule + "';";
    ContainsInfix("import { " + list + " } from '", JestGlobalsModule, "';");
    forall k | 0 <= k < |globals|
      ensures Contains(r, globals[k])
    {
      JoinedPieceBetween("import { ", globals, ", ", ImportTail, k);
    }
    assert (forall k :: 0 <= k < |globals| ==> '\n' !in globals[k]) ==> '\n' !in r by {
      if forall k :: 0 <= k < |globals| ==> '\n' !in globals[k] {
        JoinExcludes(globals, ", ", '\n');
        assert '\n' !in ImportTail;
      }
    }
    r
  }

  /** `lines.splice(at, 0, stmt)`: one line inserted, every other line kept in order. */
  function InsertLine(lines: seq<string>, at: nat, stmt: string): (r: seq<string>)
    requires at <= |lines|
    ensures |r| == |lines| + 1
    ensures r[at] == stmt
    ensures forall j :: 0 <= j < at ==> r[j] == lines[j]
    ensures forall j :: at <= j < |lines| ==> r[j + 1] == lines[j]
  {
    lines[..at] + [stmt] + lines[at..]
  }

  /**
   * `addJestImport` on the content of one file: the new content, which is
   * the old content when nothing has to be written.
   */
  function AddJestImport(content: string): (r: string)
    ensures Contains(content, JestGlobalsModule) ==> r == content
    ensures DetectJestGlobals(content) == [] ==> r == content
    ensures Contains(r, JestGlobalsModule)
            || (DetectJestGlobals(content) == [] && r == content)
  {
    if Contains(content, JestGlobalsModule) then content
    else
      var globals := DetectJestGlobals(content);
      if |globals| == 0 then content
      else
        var lines := Split(content, '\n');
        var stmt := ImportStatement(globals);
        var inserted := InsertLine(lines, InsertionPoint(lines), stmt);
        JoinContainsPiece(inserted, "\n", InsertionPoint(lines), JestGlobalsModule);
        Join(inserted, "\n")
  }

  /**
   * When the script does write, the written file, split into lines again,
   * is the original lines with the import statement inserted at the
   * insertion point.
   */
  lemma AddJestImportInsertsOneLine(content: string)
    ensures !Contains(content, JestGlobalsModule) && DetectJestGlobals(content) != [] ==>
              var lines := Split(content, '\n');
              Split(AddJestImport(content), '\n')
              == InsertLine(lines, InsertionPoint(lines), ImportStatement(DetectJestGlobals(content)))
  {
    if !Contains(content, JestGlobalsModule) && DetectJestGlobals(content) != [] {
      var lines := Split(content, '\n');
      var globals := DetectJestGlobals(content);
      var at := InsertionPoint(lines);
      forall k | 0 <= k < |globals|
        ensures '\n' !in globals[k]
      {
        GlobalsWellFormed();
        assert Globals[Position(globals[k])] == globals[k];
      }
      var stmt := ImportStatement(globals);
      assert '\n' !in stmt;
      var inserted := InsertLine(lines, at, stmt);
      assert AddJestImport(content) == Join(inserted, "\n");
      forall k | 0 <= k < |inserted|
        ensures '\n' !in inserted[k]
      {
        if k < at {
          assert inserted[k] == lines[k];
        } else if k > at {
          assert inserted[k] == lines[k - 1];
        }
      }
      SplitJoin(inserted, '\n');
    }
  }

  /** Running the script a second time changes nothing. */
  lemma AddJestImportIdempotent(content: string)
    ensures AddJestImport(AddJestImport(content)) == AddJestImport(content)
  {
  }
}
