/**
  `ccopy::CopyGroups`: sorts the fields of a class into copy groups.

  A field's type is seen through the four clang type predicates the
  classifier consults. They are independent flags: in clang a union type is
  also a record type, and the classifier's first-match order decides.
  The groups live in a `std::map<std::string, std::set<std::string>>` from
  group label to field names, so labels and names come back in ascending
  string order and a name is stored at most once per group.
 */
module Groups {
  import opened StringOrder

  datatype TypeInfo = TypeInfo(isUnion: bool, isEnum: bool, isPointer: bool, isRecord: bool)

  datatype Field = Field(name: string, ty: TypeInfo)

  const DefaultGroupName: string := "default_group"
  const C4GroupName: string := "c4_fields"

  /** A field's group: union, enum and pointer types first, then records, then the rest. */
  function DetermineGroupOf(f: Field): (groupName: string)
    ensures groupName == DefaultGroupName || groupName == C4GroupName
    ensures groupName == C4GroupName <==> f.ty.isRecord && !f.ty.isUnion && !f.ty.isEnum && !f.ty.isPointer
  {
    var t := f.ty;
    if t.isUnion || t.isEnum || t.isPointer then DefaultGroupName
    else if t.isRecord then C4GroupName
    else DefaultGroupName
  }

  /** `groups[groupName]`: the stored set, or the empty set a missing key default-constructs to. */
  function Lookup(groups: map<string, set<string>>, groupName: string): set<string>
  {
    if groupName in groups then groups[groupName] else {}
  }

  /** `groups[groupName].insert(name)`. */
  function Insert(groups: map<string, set<string>>, groupName: string, name: string): map<string, set<string>>
  {
    groups[groupName := Lookup(groups, groupName) + {name}]
  }

  /** The map after `divideBy` has inserted every field of `fields`, in order, into `groups`. */
  function Divide(groups: map<string, set<string>>, fields: seq<Field>): map<string, set<string>>
  {
    if fields == [] then groups
    else
      var last := fields[|fields| - 1];
      Insert(Divide(groups, fields[..|fields| - 1]), DetermineGroupOf(last), last.name)
  }

  /** Inserting one more field, as one pass of `divideBy`'s loop does. */
  lemma DivideSnoc(groups: map<string, set<string>>, fields: seq<Field>, i: nat)
    requires i < |fields|
    ensures Divide(groups, fields[..i + 1]) == Insert(Divide(groups, fields[..i]), DetermineGroupOf(fields[i]), fields[i].name)
  {
    assert fields[..i + 1][..i] == fields[..i];
  }

  /** The groups of a freshly constructed `CopyGroups` after one `divideBy` over a class's fields. */
  function Partition(fields: seq<Field>): map<string, set<string>>
  {
    Divide(map[], fields)
  }

  /** The names of the fields that the classifier puts under `groupName`. */
  function NamesLabelled(fields: seq<Field>, groupName: string): set<string>
  {
    set i | 0 <= i < |fields| && DetermineGroupOf(fields[i]) == groupName :: fields[i].name
  }

  /** The names of all fields. */
  function FieldNames(fields: seq<Field>): set<string>
  {
    set i | 0 <= i < |fields| :: fields[i].name
  }

  /** Every name stored under any label. */
  function AllNames(groups: map<string, set<string>>): set<string>
  {
    set groupName, name | groupName in groups && name in groups[groupName] :: name
  }

  /** The object invariant of `CopyGroups`: only the two labels, and no key without a name. */
  predicate WellFormed(groups: map<string, set<string>>)
  {
    forall groupName :: groupName in groups ==>
      (groupName == DefaultGroupName || groupName == C4GroupName) && groups[groupName] != {}
  }

  lemma NamesLabelledSnoc(fields: seq<Field>, groupName: string)
    requires fields != []
    ensures var last := fields[|fields| - 1];
      NamesLabelled(fields, groupName)
        == NamesLabelled(fields[..|fields| - 1], groupName)
           + (if DetermineGroupOf(last) == groupName then {last.name} else {})
  {
    var n := |fields| - 1;
    var init := fields[..n];
    forall x
      ensures x in NamesLabelled(fields, groupName) <==>
        x in NamesLabelled(init, groupName) || (DetermineGroupOf(fields[n]) == groupName && x == fields[n].name)
    {
      if x in NamesLabelled(fields, groupName) {
        var i :| 0 <= i < |fields| && DetermineGroupOf(fields[i]) == groupName && fields[i].name == x;
        if i < n {
          assert init[i] == fields[i];
        }
      }
      if x in NamesLabelled(init, groupName) {
        var i :| 0 <= i < n && DetermineGroupOf(init[i]) == groupName && init[i].name == x;
        assert fields[i] == init[i];
      }
    }
  }

  /**
    What `divideBy` leaves under each label: what was there before plus the
    names of exactly the fields classified under it; a label is present only
    if it was before or some field was inserted under it.
   */
  lemma {:induction false} DivideExact(groups: map<string, set<string>>, fields: seq<Field>, groupName: string)
    ensures groupName in Divide(groups, fields) <==> groupName in groups || NamesLabelled(fields, groupName) != {}
    ensures Lookup(Divide(groups, fields), groupName) == Lookup(groups, groupName) + NamesLabelled(fields, groupName)
    decreases |fields|
  {
    if fields == [] {
      assert NamesLabelled(fields, groupName) == {};
    } else {
      var n := |fields| - 1;
      DivideExact(groups, fields[..n], groupName);
      NamesLabelledSnoc(fields, groupName);
    }
  }

  /** Every field's name ends up in the group its type selects. */
  lemma FieldInItsGroup(groups: map<string, set<string>>, fields: seq<Field>, i: nat)
    requires i < |fields|
    ensures DetermineGroupOf(fields[i]) in Divide(groups, fields)
    ensures fields[i].name in Divide(groups, fields)[DetermineGroupOf(fields[i])]
  {
    var groupName := DetermineGroupOf(fields[i]);
    assert fields[i].name in NamesLabelled(fields, groupName);
    DivideExact(groups, fields, groupName);
  }

  lemma AllNamesInsert(groups: map<string, set<string>>, groupName: string, name: string)
    ensures AllNames(Insert(groups, groupName, name)) == AllNames(groups) + {name}
  {
    var r := Insert(groups, groupName, name);
    forall x | x in AllNames(groups)
      ensures x in AllNames(r)
    {
      var k :| k in groups && x in groups[k];
      assert x in r[k];
    }
    assert name in r[groupName];
  }

  lemma FieldNamesSnoc(fields: seq<Field>)
    requires fields != []
    ensures FieldNames(fields) == FieldNames(fields[..|fields| - 1]) + {fields[|fields| - 1].name}
  {
    var n := |fields| - 1;
    var init := fields[..n];
    forall x | x in FieldNames(fields)
      ensures x in FieldNames(init) + {fields[n].name}
    {
      var i :| 0 <= i < |fields| && fields[i].name == x;
      if i < n {
        assert init[i] == fields[i];
      }
    }
    forall x | x in FieldNames(init)
      ensures x in FieldNames(fields)
    {
      var i :| 0 <= i < n && init[i].name == x;
      assert fields[i] == init[i];
    }
  }

  /** Nothing is lost and nothing is removed: the names afterwards are the old ones plus the fields'. */
  lemma {:induction false} DivideAllNames(groups: map<string, set<string>>, fields: seq<Field>)
    ensures AllNames(Divide(groups, fields)) == AllNames(groups) + FieldNames(fields)
    decreases |fields|
  {
    if fields == [] {
      assert FieldNames(fields) == {};
    } else {
      var n := |fields| - 1;
      var init := fields[..n];
      DivideAllNames(groups, init);
      AllNamesInsert(Divide(groups, init), DetermineGroupOf(fields[n]), fields[n].name);
      FieldNamesSnoc(fields);
    }
  }

  /** `divideBy` keeps the object invariant: keys are labels, and sets are non-empty. */
  lemma DivideWellFormed(groups: map<string, set<string>>, fields: seq<Field>)
    requires WellFormed(groups)
    ensures WellFormed(Divide(groups, fields))
  {
    var r := Divide(groups, fields);
    forall groupName | groupName in r
      ensures (groupName == DefaultGroupName || groupName == C4GroupName) && r[groupName] != {}
    {
      DivideExact(groups, fields, groupName);
      if groupName !in groups {
        var x :| x in NamesLabelled(fields, groupName);
        var i :| 0 <= i < |fields| && DetermineGroupOf(fields[i]) == groupName && fields[i].name == x;
      }
    }
  }

  /**
    With distinct field names, no name is in two groups. Unnamed fields all
    share the empty name, so without the precondition this fails; see
    `UnnamedFieldsInBothGroups`.
   */
  lemma PartitionDisjoint(fields: seq<Field>)
    requires forall i, j :: 0 <= i < j < |fields| ==> fields[i].name != fields[j].name
    ensures forall a, b, x ::
      (a in Partition(fields) && b in Partition(fields)
       && x in Partition(fields)[a] && x in Partition(fields)[b]) ==> a == b
  {
    var r := Partition(fields);
    forall a, b, x | a in r && b in r && x in r[a] && x in r[b]
      ensures a == b
    {
      DivideExact(map[], fields, a);
      DivideExact(map[], fields, b);
      var i :| 0 <= i < |fields| && DetermineGroupOf(fields[i]) == a && fields[i].name == x;
      var j :| 0 <= j < |fields| && DetermineGroupOf(fields[j]) == b && fields[j].name == x;
      assert i == j;
    }
  }

  /** Two unnamed fields of different kinds put the empty name into both groups. */
  lemma UnnamedFieldsInBothGroups(record: TypeInfo, plain: TypeInfo)
    requires DetermineGroupOf(Field("", record)) == C4GroupName
    requires DetermineGroupOf(Field("", plain)) == DefaultGroupName
    ensures var groups := Partition([Field("", record), Field("", plain)]);
      && C4GroupName in groups && "" in groups[C4GroupName]
      && DefaultGroupName in groups && "" in groups[DefaultGroupName]
  {
    var fields := [Field("", record), Field("", plain)];
    FieldInItsGroup(map[], fields, 0);
    FieldInItsGroup(map[], fields, 1);
  }

  lemma AtMostTwoLabels(groups: map<string, set<string>>)
    requires WellFormed(groups)
    ensures |groups| <= 2
  {
    assert groups.Keys <= {DefaultGroupName, C4GroupName};
    SubsetSize(groups.Keys, {DefaultGroupName, C4GroupName});
  }

  lemma {:induction false} SubsetSize(a: set<string>, b: set<string>)
    requires a <= b
    ensures |a| <= |b|
    decreases b
  {
    if a != {} {
      var x :| x in a;
      SubsetSize(a - {x}, b - {x});
    }
  }

  /**
    A class has two copy groups exactly when it has a record-typed field
    (not a union, enum or pointer) and some other field; never more than two.
   */
  lemma PartitionSize(fields: seq<Field>)
    ensures |Partition(fields)| <= 2
    ensures |Partition(fields)| >= 2 <==>
      (exists i :: 0 <= i < |fields| && DetermineGroupOf(fields[i]) == C4GroupName)
      && (exists j :: 0 <= j < |fields| && DetermineGroupOf(fields[j]) == DefaultGroupName)
  {
    var r := Partition(fields);
    DivideWellFormed(map[], fields);
    AtMostTwoLabels(r);
    if |r| >= 2 {
      TwoGroupsArePresent(fields);
      DivideExact(map[], fields, C4GroupName);
      DivideExact(map[], fields, DefaultGroupName);
      var x :| x in NamesLabelled(fields, C4GroupName);
      var y :| y in NamesLabelled(fields, DefaultGroupName);
    }
    if && (exists i :: 0 <= i < |fields| && DetermineGroupOf(fields[i]) == C4GroupName)
       && (exists j :: 0 <= j < |fields| && DetermineGroupOf(fields[j]) == DefaultGroupName)
    {
      var i :| 0 <= i < |fields| && DetermineGroupOf(fields[i]) == C4GroupName;
      var j :| 0 <= j < |fields| && DetermineGroupOf(fields[j]) == DefaultGroupName;
      FieldInItsGroup(map[], fields, i);
      FieldInItsGroup(map[], fields, j);
      assert C4GroupName[0] != DefaultGroupName[0];
      SubsetSize({C4GroupName, DefaultGroupName}, r.Keys);
    }
  }

  /** One map entry as a `const_iterator` yields it: a label and its group. */
  datatype Group = Group(groupName: string, names: set<string>)

  /** The entries of `groups` in the order `begin()` to `end()` visits them. */
  function SortedEntries(groups: map<string, set<string>>): (entries: seq<Group>)
    ensures |entries| == |groups|
    ensures forall i :: 0 <= i < |entries| ==>
      entries[i].groupName in groups && entries[i].names == groups[entries[i].groupName]
    ensures forall i, j {:trigger Less(entries[i].groupName, entries[j].groupName)} ::
      0 <= i < j < |entries| ==> Less(entries[i].groupName, entries[j].groupName)
  {
    EntriesFor(groups, Sorted(groups.Keys))
  }

  /** Every label of the map is visited, with the names stored under it. */
  lemma SortedEntriesCover(groups: map<string, set<string>>, groupName: string)
    requires groupName in groups
    ensures exists i ::
      && 0 <= i < |SortedEntries(groups)|
      && SortedEntries(groups)[i] == Group(groupName, groups[groupName])
  {
    var labels := Sorted(groups.Keys);
    var i :| 0 <= i < |labels| && labels[i] == groupName;
    assert SortedEntries(groups)[i] == Group(groupName, groups[groupName]);
  }

  /** The entries of `groups` under `labels`, in the order of `labels`. */
  function EntriesFor(groups: map<string, set<string>>, labels: seq<string>): (entries: seq<Group>)
    requires forall groupName :: groupName in labels ==> groupName in groups
    ensures |entries| == |labels|
    ensures forall i :: 0 <= i < |labels| ==> entries[i] == Group(labels[i], groups[labels[i]])
  {
    if labels == [] then []
    else [Group(labels[0], groups[labels[0]])] + EntriesFor(groups, labels[1..])
  }

  /** Walking the map from `begin()` to `end()` meets every field's name under its label. */
  lemma FieldInItsEntry(fields: seq<Field>, i: nat)
    requires i < |fields|
    ensures exists j ::
      && 0 <= j < |SortedEntries(Partition(fields))|
      && SortedEntries(Partition(fields))[j].groupName == DetermineGroupOf(fields[i])
      && fields[i].name in SortedEntries(Partition(fields))[j].names
  {
    var groups, groupName := Partition(fields), DetermineGroupOf(fields[i]);
    FieldInItsGroup(map[], fields, i);
    SortedEntriesCover(groups, groupName);
    var j :| 0 <= j < |SortedEntries(groups)| && SortedEntries(groups)[j] == Group(groupName, groups[groupName]);
  }

  /** `std::string` order puts `"c4_fields"` before `"default_group"`. */
  lemma C4BeforeDefault()
    ensures Less(C4GroupName, DefaultGroupName)
  {
    assert C4GroupName[0] == 'c' && DefaultGroupName[0] == 'd';
  }

  lemma TwoGroupsArePresent(fields: seq<Field>)
    requires |Partition(fields)| >= 2
    ensures Partition(fields).Keys == {C4GroupName, DefaultGroupName}
  {
    var r := Partition(fields);
    DivideWellFormed(map[], fields);
    assert r.Keys <= {C4GroupName, DefaultGroupName};
    if C4GroupName !in r {
      assert r.Keys <= {DefaultGroupName};
      SubsetSize(r.Keys, {DefaultGroupName});
    } else if DefaultGroupName !in r {
      assert r.Keys <= {C4GroupName};
      SubsetSize(r.Keys, {C4GroupName});
    }
  }

  /** A map with two keys `x` below `y` is visited `x` first, then `y`. */
  lemma TwoKeysInOrder(groups: map<string, set<string>>, x: string, y: string)
    requires groups.Keys == {x, y} && Less(x, y)
    ensures var entries := SortedEntries(groups);
      |entries| == 2 && entries[0].groupName == x && entries[1].groupName == y
  {
    var entries := SortedEntries(groups);
    LessIrreflexive(x);
    assert |groups| == 2;
    OrderedPair(entries[0].groupName, entries[1].groupName, x, y);
  }

  /** With both groups present, `"c4_fields"` is visited before `"default_group"`. */
  lemma TwoGroupsInLabelOrder(fields: seq<Field>)
    requires |Partition(fields)| >= 2
    ensures var entries := SortedEntries(Partition(fields));
      |entries| == 2 && entries[0].groupName == C4GroupName && entries[1].groupName == DefaultGroupName
  {
    TwoGroupsArePresent(fields);
    C4BeforeDefault();
    TwoKeysInOrder(Partition(fields), C4GroupName, DefaultGroupName);
  }

  /** `ccopy::CopyGroups`. */
  class CopyGroups {
    var groups: map<string, set<string>>

    predicate Valid()
      reads this
    {
      WellFormed(groups)
    }

    constructor ()
      ensures Valid() && groups == map[]
    {
      groups := map[];
    }

    /** Inserts each field's name into the group of its type, in field order. */
    method DivideBy(fields: seq<Field>)
      requires Valid()
      modifies this
      ensures Valid()
      ensures groups == Divide(old(groups), fields)
    {
      var i := 0;
      while i < |fields|
        invariant 0 <= i <= |fields|
        invariant Valid()
        invariant groups == Divide(old(groups), fields[..i])
      {
        var groupName := DetermineGroupOf(fields[i]);
        var group := if groupName in groups then groups[groupName] else {};
        groups := groups[groupName := group + {fields[i].name}];
        DivideSnoc(old(groups), fields, i);
        i := i + 1;
      }
      assert fields[..i] == fields;
    }

    /** The number of groups, which the two labels bound by two. */
    function Size(): (n: nat)
      reads this
      requires Valid()
      ensures n <= 2
      ensures n == 0 <==> groups == map[]
    {
      AtMostTwoLabels(groups);
      |groups|
    }

    /** The groups from `begin()` to `end()`; reading them changes nothing. */
    function Entries(): seq<Group>
      reads this
    {
      SortedEntries(groups)
    }
  }
}
