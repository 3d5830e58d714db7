/**
  The clang tool's own logic (`tool/CCopy.cpp`): which classes get a copy
  constructor, the text of that constructor, and the name of the output file.

  The clang rewriter is modelled as an append-only text buffer: every
  insertion of `inject` goes to the same source location with "insert after"
  semantics, so the inserted text reads in call order. A class declaration is
  modelled by the few facts the tool asks clang about it.
 */
module CCopy {
  import opened StringOrder
  import opened Text
  import opened Groups

  datatype Option<T> = None | Some(value: T)

  /** What the visitor learns about one `CXXRecordDecl`. */
  datatype RecordDecl = RecordDecl(
    name: string,
    fields: seq<Field>,
    hasUserDeclaredCopyConstructor: bool,
    isCompleteDefinition: bool,
    bases: seq<string>)  // the printed type of each direct base, in order

  // ---------------------------------------------------------------------
  // The generated text

  /** The skip comment of `inject`, one literal in the source, spelt here in three pieces. */
  const SkipComment: string := "//" + "less than 2 copy groups, " + "default copy constructor fits\n"
  const ConstructorClose: string := "}\n\n"

  function Header(className: string): string
  {
    "\npublic:\n" + className + "(const " + className + "& other) {\n"
  }

  function ThreadOpen(g: Group): string
  {
    "std::thread " + g.groupName + "([&](){\n"
  }

  const ThreadClose: string := "});\n\n"

  function AssignLine(fieldName: string): string
  {
    fieldName + " = other." + fieldName + ";\n"
  }

  /** The thread of one group: its fields copied in `std::set` order. */
  function ThreadBlock(g: Group): string
  {
    ThreadOpen(g) + ConcatMap(AssignLine, Sorted(g.names)) + ThreadClose
  }

  /** The join of one group's thread; the source writes it without a `;`. */
  function JoinLine(g: Group): string
  {
    g.groupName + ".join()\n"
  }

  /** The groups of a class, in the order `inject` visits them. */
  function EntriesOf(fields: seq<Field>): seq<Group>
  {
    SortedEntries(Partition(fields))
  }

  function ConstructorText(className: string, entries: seq<Group>): string
  {
    Header(className) + ConcatMap(ThreadBlock, entries) + ConcatMap(JoinLine, entries) + ConstructorClose
  }

  lemma ConstructorFraming(className: string, entries: seq<Group>)
    ensures StartsWith(ConstructorText(className, entries), Header(className))
    ensures EndsWith(ConstructorText(className, entries), ConstructorClose)
    ensures ConstructorText(className, entries)[0] == '\n'
  {
    var body := ConcatMap(ThreadBlock, entries) + ConcatMap(JoinLine, entries);
    assert ConstructorText(className, entries) == Header(className) + (body + ConstructorClose);
  }

  /**
    Everything `inject` inserts for a class: a skip comment when the fields
    form fewer than two groups, and otherwise a copy constructor that copies
    every group on a thread of its own and joins the threads at the end.
   */
  function InjectText(className: string, fields: seq<Field>): (text: string)
    ensures text == SkipComment <==> |Partition(fields)| < 2
    ensures |Partition(fields)| >= 2 ==>
      StartsWith(text, Header(className)) && EndsWith(text, ConstructorClose)
  {
    if |Partition(fields)| < 2 then SkipComment
    else
      var text := ConstructorText(className, EntriesOf(fields));
      ConstructorFraming(className, EntriesOf(fields));
      assert SkipComment[0] == '/';
      text
  }

  /** With two groups, `inject` inserts exactly the constructor text. */
  lemma InjectTextIsConstructor(className: string, fields: seq<Field>)
    requires |Partition(fields)| >= 2
    ensures InjectText(className, fields) == ConstructorText(className, EntriesOf(fields))
  {
  }

  /** A field of a group is copied in that group's thread. */
  lemma AssignInThread(g: Group, name: string)
    requires name in g.names
    ensures Occurs(AssignLine(name), ThreadBlock(g))
  {
    var names := Sorted(g.names);
    var p :| 0 <= p < |names| && names[p] == name;
    OccursInConcatMap(AssignLine, names, p);
    OccursInside(AssignLine(name), ThreadOpen(g), ConcatMap(AssignLine, names), ThreadClose);
  }

  /** Every group's thread is part of the constructor. */
  lemma ThreadInConstructor(className: string, entries: seq<Group>, j: nat)
    requires j < |entries|
    ensures Occurs(ThreadBlock(entries[j]), ConstructorText(className, entries))
  {
    var threads := ConcatMap(ThreadBlock, entries);
    OccursInConcatMap(ThreadBlock, entries, j);
    OccursInside(ThreadBlock(entries[j]), Header(className), threads, ConcatMap(JoinLine, entries));
    OccursInPrefix(ThreadBlock(entries[j]), Header(className) + threads + ConcatMap(JoinLine, entries), ConstructorClose);
  }

  /**
    Every field is copied inside the thread of the group its type selects,
    and that thread is part of the generated constructor.
   */
  lemma FieldCopiedInItsThread(className: string, fields: seq<Field>, i: nat)
    requires i < |fields| && |Partition(fields)| >= 2
    ensures exists j ::
      && 0 <= j < |EntriesOf(fields)|
      && EntriesOf(fields)[j].groupName == DetermineGroupOf(fields[i])
      && Occurs(AssignLine(fields[i].name), ThreadBlock(EntriesOf(fields)[j]))
      && Occurs(ThreadBlock(EntriesOf(fields)[j]), InjectText(className, fields))
  {
    var entries := EntriesOf(fields);
    FieldInItsEntry(fields, i);
    var j :| 0 <= j < |entries| && entries[j].groupName == DetermineGroupOf(fields[i]) && fields[i].name in entries[j].names;
    AssignInThread(entries[j], fields[i].name);
    ThreadInConstructor(className, entries, j);
    InjectTextIsConstructor(className, fields);
  }

  /**
    A class gets the skip comment exactly when all its fields fall into the
    same group (a class without fields included).
   */
  lemma SkipExactlyWhenOneGroup(className: string, fields: seq<Field>)
    ensures InjectText(className, fields) == SkipComment <==>
      forall i, j :: 0 <= i < j < |fields| ==> DetermineGroupOf(fields[i]) == DetermineGroupOf(fields[j])
  {
    PartitionSize(fields);
    assert C4GroupName[0] != DefaultGroupName[0];
    if |Partition(fields)| >= 2 {
      var i :| 0 <= i < |fields| && DetermineGroupOf(fields[i]) == C4GroupName;
      var j :| 0 <= j < |fields| && DetermineGroupOf(fields[j]) == DefaultGroupName;
      if i < j {
        assert DetermineGroupOf(fields[i]) != DetermineGroupOf(fields[j]);
      } else {
        assert DetermineGroupOf(fields[j]) != DetermineGroupOf(fields[i]);
      }
    } else {
      forall i, j | 0 <= i < j < |fields|
        ensures DetermineGroupOf(fields[i]) == DetermineGroupOf(fields[j])
      {
        if DetermineGroupOf(fields[i]) == C4GroupName {
          assert DetermineGroupOf(fields[j]) != DefaultGroupName;
        } else {
          assert DetermineGroupOf(fields[j]) != C4GroupName;
        }
      }
    }
  }

  /** Every thread is started before any thread is joined, its own join included. */
  lemma ThreadPrecedesJoin(className: string, fields: seq<Field>, j: nat, k: nat)
    requires |Partition(fields)| >= 2
    requires j < |EntriesOf(fields)| && k < |EntriesOf(fields)|
    ensures Precedes(InjectText(className, fields), ThreadBlock(EntriesOf(fields)[j]), JoinLine(EntriesOf(fields)[k]))
  {
    FirstRunPrecedesSecond(Header(className), ThreadBlock, JoinLine, EntriesOf(fields), ConstructorClose, j, k);
  }

  /**
    The join lines start right where the last thread block ends: the
    constructor text up to that position is the header and the thread blocks,
    and the rest is the join lines and the closing brace, so no join comes
    before a thread. With two groups this is the text `inject` inserts
    (`InjectTextIsConstructor`).
   */
  lemma JoinsAfterThreads(className: string, entries: seq<Group>)
    ensures var n := |Header(className)| + |ConcatMap(ThreadBlock, entries)|;
      && ConstructorText(className, entries)[..n] == Header(className) + ConcatMap(ThreadBlock, entries)
      && ConstructorText(className, entries)[n..] == ConcatMap(JoinLine, entries) + ConstructorClose
  {
    SplitAfterSecond(Header(className), ConcatMap(ThreadBlock, entries), ConcatMap(JoinLine, entries), ConstructorClose);
  }

  /**
    With two groups the constructor starts the `c4_fields` thread, then the
    `default_group` one, and joins them in that order.
   */
  lemma GeneratedConstructorShape(className: string, fields: seq<Field>)
    requires |Partition(fields)| >= 2
    ensures var entries := EntriesOf(fields);
      && |entries| == 2
      && entries[0].groupName == C4GroupName && entries[1].groupName == DefaultGroupName
      && InjectText(className, fields)
         == Header(className) + (ThreadBlock(entries[0]) + ThreadBlock(entries[1]))
            + (C4GroupName + ".join()\n" + (DefaultGroupName + ".join()\n")) + ConstructorClose
  {
    var entries := EntriesOf(fields);
    TwoGroupsInLabelOrder(fields);
    ConcatMapTwo(ThreadBlock, entries);
    ConcatMapTwo(JoinLine, entries);
  }

  // ---------------------------------------------------------------------
  // The rewriter and the injector

  /** The clang `Rewriter`, seen as the text inserted so far. */
  class Rewriter {
    var text: string

    constructor ()
      ensures text == ""
    {
      text := "";
    }

    /** `InsertText`/`InsertTextAfter` at the class's end location. */
    method InsertText(s: string)
      modifies this
      ensures text == old(text) + s
    {
      text := text + s;
    }
  }

  /** `CCopyConstructorInjector`. */
  class Injector {
    const rewriter: Rewriter

    /** A fresh rewriter for the translation unit: nothing inserted yet. */
    constructor ()
      ensures fresh(rewriter) && rewriter.text == ""
    {
      rewriter := new Rewriter();
    }

    /** Groups the fields of `recordDecl` and inserts the skip comment or the constructor. */
    method Inject(recordDecl: RecordDecl)
      modifies rewriter
      ensures rewriter.text == old(rewriter.text) + InjectText(recordDecl.name, recordDecl.fields)
    {
      var className := recordDecl.name;
      var copygroups := new CopyGroups();
      copygroups.DivideBy(recordDecl.fields);

      if copygroups.Size() < 2 {
        rewriter.InsertText(SkipComment);
        return;
      }

      rewriter.InsertText(Header(className));
      var entries := copygroups.Entries();
      var joins := InjectThreads(entries);
      rewriter.InsertText(joins);
      rewriter.InsertText(ConstructorClose);
      InjectTextIsConstructor(className, recordDecl.fields);
      AppendAssoc5(old(rewriter.text), Header(className), ConcatMap(ThreadBlock, entries), joins, ConstructorClose);
    }

    /**
      `inject`'s loop over the groups: starts one thread per group, in map
      order, and collects the matching joins for after the loop.
     */
    method InjectThreads(entries: seq<Group>) returns (joins: string)
      modifies rewriter
      ensures rewriter.text == old(rewriter.text) + ConcatMap(ThreadBlock, entries)
      ensures joins == ConcatMap(JoinLine, entries)
    {
      ghost var start := rewriter.text;
      joins := "";
      var i := 0;
      while i < |entries|
        invariant 0 <= i <= |entries|
        invariant rewriter.text == start + ConcatMap(ThreadBlock, entries[..i])
        invariant joins == ConcatMap(JoinLine, entries[..i])
      {
        InjectThread(entries[i]);
        joins := joins + JoinLine(entries[i]);
        ConcatMapSnoc(ThreadBlock, entries, i);
        ConcatMapSnoc(JoinLine, entries, i);
        AppendAssoc(start, ConcatMap(ThreadBlock, entries[..i]), ThreadBlock(entries[i]));
        i := i + 1;
      }
      assert entries[..i] == entries;
    }

    /** One pass of `inject`'s loop: the thread of `g`, copying its fields in `std::set` order. */
    method InjectThread(g: Group)
      modifies rewriter
      ensures rewriter.text == old(rewriter.text) + ThreadBlock(g)
    {
      ghost var before := rewriter.text;
      rewriter.InsertText(ThreadOpen(g));

      var names := Sorted(g.names);
      var j := 0;
      while j < |names|
        invariant 0 <= j <= |names|
        invariant rewriter.text == before + ThreadOpen(g) + ConcatMap(AssignLine, names[..j])
      {
        var fieldName := names[j];
        rewriter.InsertText(AssignLine(fieldName));
        ConcatMapSnoc(AssignLine, names, j);
        AppendAssoc(before + ThreadOpen(g), ConcatMap(AssignLine, names[..j]), AssignLine(fieldName));
        j := j + 1;
      }
      assert names[..j] == names;

      rewriter.InsertText(ThreadClose);
      AppendAssoc(before, ThreadOpen(g), ConcatMap(AssignLine, names));
      AppendAssoc(before, ThreadOpen(g) + ConcatMap(AssignLine, names), ThreadClose);
    }
  }

  // ---------------------------------------------------------------------
  // Which classes get a constructor

  /** The printed type of the marker base class. */
  const MarkerBase: string := "class C4"

  /** The branch `VisitCXXRecordDecl` takes for a class. */
  datatype Verdict = CopyConstructorFound | NotCompleteDefinition | NoMarker | Generate

  /** A user copy constructor wins before completeness is looked at; the marker is looked at last. */
  function Decide(recordDecl: RecordDecl): (verdict: Verdict)
    ensures verdict == Generate <==>
      !recordDecl.hasUserDeclaredCopyConstructor && recordDecl.isCompleteDefinition
      && MarkerBase in recordDecl.bases
    ensures recordDecl.hasUserDeclaredCopyConstructor ==> verdict == CopyConstructorFound
    ensures verdict == NoMarker ==> forall i :: 0 <= i < |recordDecl.bases| ==> recordDecl.bases[i] != MarkerBase
  {
    if recordDecl.hasUserDeclaredCopyConstructor then CopyConstructorFound
    else if !recordDecl.isCompleteDefinition then NotCompleteDefinition
    else if MarkerBase in recordDecl.bases then Generate
    else NoMarker
  }

  /** What visiting one class adds to the rewriter. */
  function VisitText(recordDecl: RecordDecl): string
  {
    if Decide(recordDecl) == Generate then InjectText(recordDecl.name, recordDecl.fields) else ""
  }

  /** `FindExpensiveClassVisitor`. */
  class Visitor {
    const injector: Injector

    constructor (injector: Injector)
      ensures this.injector == injector
    {
      this.injector := injector;
    }

    /** Looks for the marker among the direct bases only, stopping at the first match. */
    method IsC4(recordDecl: RecordDecl) returns (found: bool)
      ensures found <==> exists i :: 0 <= i < |recordDecl.bases| && recordDecl.bases[i] == MarkerBase
    {
      var i := 0;
      while i < |recordDecl.bases|
        invariant 0 <= i <= |recordDecl.bases|
        invariant forall k :: 0 <= k < i ==> recordDecl.bases[k] != MarkerBase
      {
        if recordDecl.bases[i] == MarkerBase {
          return true;
        }
        i := i + 1;
      }
      return false;
    }

    /** Injects into eligible classes, and always lets the traversal go on. */
    method VisitCXXRecordDecl(recordDecl: RecordDecl) returns (continueTraversal: bool)
      modifies injector.rewriter
      ensures continueTraversal
      ensures injector.rewriter.text == old(injector.rewriter.text) + VisitText(recordDecl)
    {
      var hasCopyCtr := recordDecl.hasUserDeclaredCopyConstructor;
      if hasCopyCtr {
      } else if recordDecl.isCompleteDefinition {
        var isC4 := IsC4(recordDecl);
        if isC4 {
          injector.Inject(recordDecl);
        }
      }
      return true;
    }

    /** Visits the classes of a translation unit in order. */
    method TraverseDecls(decls: seq<RecordDecl>)
      modifies injector.rewriter
      ensures injector.rewriter.text == old(injector.rewriter.text) + ConcatMap(VisitText, decls)
    {
      ghost var start := injector.rewriter.text;
      var i := 0;
      while i < |decls|
        invariant 0 <= i <= |decls|
        invariant injector.rewriter.text == start + ConcatMap(VisitText, decls[..i])
      {
        var _ := VisitCXXRecordDecl(decls[i]);
        ConcatMapSnoc(VisitText, decls, i);
        AppendAssoc(start, ConcatMap(VisitText, decls[..i]), VisitText(decls[i]));
        i := i + 1;
      }
      assert decls[..i] == decls;
    }
  }

  /** A class that is not eligible leaves no trace: the text is as if it were absent. */
  lemma SkippedClassLeavesNoTrace(decls: seq<RecordDecl>, i: nat)
    requires i < |decls| && Decide(decls[i]) != Generate
    ensures ConcatMap(VisitText, decls) == ConcatMap(VisitText, decls[..i] + decls[i + 1..])
  {
    assert VisitText(decls[i]) == "";
    ConcatMapDropEmpty(VisitText, decls, i);
  }

  // ---------------------------------------------------------------------
  // The output file name

  /** `std::string::rfind`: the last position of `c`, `None` for `npos`. */
  function RFind(s: string, c: char): (pos: Option<nat>)
    ensures pos.None? ==> c !in s
    ensures pos.Some? ==> pos.value < |s| && s[pos.value] == c && c !in s[pos.value + 1..]
  {
    if s == [] then None
    else if s[|s| - 1] == c then Some(|s| - 1)
    else
      var r := RFind(s[..|s| - 1], c);
      assert s == s[..|s| - 1] + [s[|s| - 1]];
      r
  }

  lemma RFindLast(s: string, c: char, k: nat)
    requires k < |s| && s[k] == c && c !in s[k + 1..]
    ensures RFind(s, c) == Some(k)
  {
  }

  /** `dump`'s output name: `"_out"` goes right before the last `.`, or at the end without one. */
  function OutputName(inFile: string): (outName: string)
    ensures |outName| == |inFile| + 4
    ensures '.' !in inFile ==> outName == inFile + "_out"
    ensures forall k :: 0 <= k < |inFile| && inFile[k] == '.' && '.' !in inFile[k + 1..] ==>
      outName == inFile[..k] + "_out" + inFile[k..]
  {
    var ext := match RFind(inFile, '.') case None => |inFile| case Some(pos) => pos;
    var outName := inFile[..ext] + "_out" + inFile[ext..];
    assert forall k :: 0 <= k < |inFile| && inFile[k] == '.' && '.' !in inFile[k + 1..] ==> k == ext by {
      forall k | 0 <= k < |inFile| && inFile[k] == '.' && '.' !in inFile[k + 1..]
        ensures k == ext
      {
        RFindLast(inFile, '.', k);
      }
    }
    outName
  }

  /** The output keeps the input's extension: its last `.` is the input's, four places later. */
  lemma OutputNameKeepsExtension(inFile: string)
    ensures RFind(OutputName(inFile), '.') ==
      match RFind(inFile, '.') case None => None case Some(k) => Some(k + 4)
    ensures forall k :: RFind(inFile, '.') == Some(k) ==> OutputName(inFile)[k + 4..] == inFile[k..]
  {
    var outName := OutputName(inFile);
    match RFind(inFile, '.')
    case None =>
      assert '.' !in outName by {
        assert outName == inFile + "_out";
      }
    case Some(k) =>
      assert outName == inFile[..k] + "_out" + inFile[k..];
      assert outName[k + 4..] == inFile[k..];
      assert outName[k + 4 + 1..] == inFile[k + 1..];
      RFindLast(outName, '.', k + 4);
  }
}
