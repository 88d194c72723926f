/** The generator of the PowerPC opcode lookup: a table of instructions becomes nested switches. */
module DecoderTable {
  import opened Options
  import opened Bits
  import opened Arithmetic

  // ----- bit fields of an instruction word; bit 0 is the most significant of 32

  /** Bits `left` to `right` of a word. */
  type Part = p: (nat, nat) | p.0 <= p.1 < 32 witness (0, 0)

  type Parts = seq<Part>

  function BitExtract(x: nat, part: Part): nat {
    And(Shr(x, 31 - part.1), Pow2(part.1 - part.0 + 1) - 1)
  }

  const PRIMARY: Part := (0, 5)

  function Primary(x: nat): nat {
    BitExtract(x, PRIMARY)
  }

  /** The rightmost bit of all parts. */
  function Rightmost(parts: Parts): (r: nat)
    ensures r < 32 && forall k :: 0 <= k < |parts| ==> parts[k].1 <= r
  {
    if parts == [] then 0
    else
      var r := Rightmost(parts[..|parts| - 1]);
      if r >= parts[|parts| - 1].1 then r else parts[|parts| - 1].1
  }

  /** The parts of a word put side by side where they stand, counted from bit `shift`. */
  function Gather(x: nat, parts: Parts, shift: nat): nat
    requires forall k :: 0 <= k < |parts| ==> parts[k].1 <= shift
  {
    if parts == [] then 0
    else
      var last := parts[|parts| - 1];
      Or(Gather(x, parts[..|parts| - 1], shift), Shl(BitExtract(x, last), shift - last.1))
  }

  function Extended(x: nat, parts: Parts): nat {
    Gather(x, parts, Rightmost(parts))
  }

  method OpcodeExtended(x: nat, parts: Parts) returns (value: nat)
    ensures value == Extended(x, parts)
  {
    var shift := 0;
    for k := 0 to |parts|
      invariant shift == Rightmost(parts[..k])
    {
      assert parts[..k + 1][..k] == parts[..k];
      shift := Max(shift, parts[k].1);
    }
    assert parts[..|parts|] == parts;
    value := GatherParts(x, parts, shift);
  }

  /** Puts the parts of a word side by side. */
  method GatherParts(x: nat, parts: Parts, shift: nat) returns (value: nat)
    requires forall k :: 0 <= k < |parts| ==> parts[k].1 <= shift
    ensures value == Gather(x, parts, shift)
  {
    value := 0;
    for k := 0 to |parts|
      invariant value == Gather(x, parts[..k], shift)
    {
      assert parts[..k + 1][..k] == parts[..k];
      var partValue := BitExtract(x, parts[k]);
      value := Or(value, Shl(partValue, shift - parts[k].1));
    }
    assert parts[..|parts|] == parts;
  }

  /** Bit `b` of a word belongs to one of the parts. */
  predicate InParts(parts: Parts, b: nat) {
    exists k :: 0 <= k < |parts| && parts[k].0 <= b <= parts[k].1
  }

  predicate WordBit(x: nat, b: nat) {
    b < 32 && Bit(x, 31 - b)
  }

  lemma {:induction false} ShrBit(x: nat, k: nat, i: nat)
    ensures Bit(Shr(x, k), i) <==> Bit(x, k + i)
  {
    if k > 0 {
      ShrBit(x / 2, k - 1, i);
    }
  }

  lemma {:induction false} ShlBit(x: nat, k: nat, i: nat)
    ensures Bit(Shl(x, k), i) <==> i >= k && Bit(x, i - k)
  {
    if k > 0 && i > 0 {
      ShlBit(x, k - 1, i - 1);
    }
  }

  /** An extracted and shifted part holds exactly its bits of the word. */
  lemma {:induction false} PartBit(x: nat, part: Part, shift: nat, j: nat)
    requires part.1 <= shift < 32
    ensures Bit(Shl(BitExtract(x, part), shift - part.1), j) <==>
              j <= shift && part.0 <= shift - j <= part.1 && WordBit(x, shift - j)
  {
    ShlBit(BitExtract(x, part), shift - part.1, j);
    if j >= shift - part.1 {
      var i := j - (shift - part.1);
      AndBit(Shr(x, 31 - part.1), Pow2(part.1 - part.0 + 1) - 1, i);
      LowMaskBit(part.1 - part.0 + 1, i);
      ShrBit(x, 31 - part.1, i);
    }
  }

  lemma {:induction false} GatherBit(x: nat, parts: Parts, shift: nat, j: nat)
    requires shift < 32 && forall k :: 0 <= k < |parts| ==> parts[k].1 <= shift
    ensures Bit(Gather(x, parts, shift), j) <==> j <= shift && InParts(parts, shift - j) && WordBit(x, shift - j)
  {
    if parts == [] {
      ZeroBit(j);
    } else {
      var n := |parts| - 1;
      GatherBit(x, parts[..n], shift, j);
      OrBit(Gather(x, parts[..n], shift), Shl(BitExtract(x, parts[n]), shift - parts[n].1), j);
      PartBit(x, parts[n], shift, j);
      if j <= shift {
        InPartsGrows(parts, shift - j);
      }
    }
  }

  lemma {:induction false} InPartsGrows(parts: Parts, b: nat)
    requires |parts| > 0
    ensures var n := |parts| - 1;
            InParts(parts, b) <==> InParts(parts[..n], b) || parts[n].0 <= b <= parts[n].1
  {
    var n := |parts| - 1;
    if InParts(parts[..n], b) {
      var k :| 0 <= k < n && parts[..n][k].0 <= b <= parts[..n][k].1;
      assert parts[k].0 <= b <= parts[k].1;
    }
    if InParts(parts, b) {
      var k :| 0 <= k <= n && parts[k].0 <= b <= parts[k].1;
      assert k < n ==> parts[..n][k].0 <= b <= parts[..n][k].1;
    }
  }

  /** Two words without a differing bit are equal. */
  lemma {:induction false} SameBits(x: nat, y: nat)
    requires forall j: nat :: Bit(x, j) == Bit(y, j)
    ensures x == y
    decreases x + y
  {
    assert Bit(x, 0) == Bit(y, 0);
    if x > 0 || y > 0 {
      forall j: nat ensures Bit(x / 2, j) == Bit(y / 2, j) {
        assert Bit(x, j + 1) == Bit(y, j + 1);
      }
      SameBits(x / 2, y / 2);
    }
  }

  /** Two words have the same extended opcode exactly when they agree on every bit of the form's parts. */
  lemma {:induction false} ExtendedAgrees(x: nat, y: nat, parts: Parts)
    ensures Extended(x, parts) == Extended(y, parts) <==>
              forall b: nat :: InParts(parts, b) ==> WordBit(x, b) == WordBit(y, b)
  {
    var shift := Rightmost(parts);
    if Extended(x, parts) == Extended(y, parts) {
      forall b: nat | InParts(parts, b) ensures WordBit(x, b) == WordBit(y, b) {
        GatherBit(x, parts, shift, shift - b);
        GatherBit(y, parts, shift, shift - b);
      }
    } else if forall b: nat :: InParts(parts, b) ==> WordBit(x, b) == WordBit(y, b) {
      forall j: nat ensures Bit(Extended(x, parts), j) == Bit(Extended(y, parts), j) {
        GatherBit(x, parts, shift, j);
        GatherBit(y, parts, shift, j);
      }
      SameBits(Extended(x, parts), Extended(y, parts));
    }
  }

  // ----- the table and the switches made from it

  /** A row of the table; the form of some instructions has no extended opcode. */
  datatype Insn = Insn(opcode: nat, name: string, parts: Option<Parts>)

  function ExtendedOf(i: Insn): int {
    if i.parts.Some? then Extended(i.opcode, i.parts.value) else -1
  }

  /** One inner switch: its cases are the extended opcodes of the rows. */
  datatype Group = Group(parts: Parts, rows: seq<Insn>)

  /** What a case of the outer switch holds. */
  datatype Node = Direct(row: Insn) | Switches(groups: seq<Group>)

  type Tree = map<nat, Node>

  /** The rows with a primary opcode, in table order. */
  function Subtable(insns: seq<Insn>, p: nat): seq<Insn> {
    if insns == [] then []
    else
      var last := insns[|insns| - 1];
      Subtable(insns[..|insns| - 1], p) + if Primary(last.opcode) == p then [last] else []
  }

  /** The rows whose form has these parts. */
  function WithParts(rows: seq<Insn>, parts: Parts): seq<Insn> {
    if rows == [] then []
    else
      var last := rows[|rows| - 1];
      WithParts(rows[..|rows| - 1], parts) + if last.parts == Some(parts) then [last] else []
  }

  /** Insertion behind everything with no larger key. */
  function Insert<T>(key: T -> int, x: T, s: seq<T>): seq<T> {
    if s == [] || key(s[|s| - 1]) <= key(x) then s + [x] else Insert(key, x, s[..|s| - 1]) + [s[|s| - 1]]
  }

  function SortBy<T>(key: T -> int, s: seq<T>): seq<T> {
    if s == [] then [] else Insert(key, s[|s| - 1], SortBy(key, s[..|s| - 1]))
  }

  lemma {:induction false} InsertMembers<T>(key: T -> int, x: T, s: seq<T>)
    ensures forall y :: y in Insert(key, x, s) <==> y == x || y in s
  {
    if !(s == [] || key(s[|s| - 1]) <= key(x)) {
      InsertMembers(key, x, s[..|s| - 1]);
      assert s == s[..|s| - 1] + [s[|s| - 1]];
    }
  }

  lemma {:induction false} SortMembers<T>(key: T -> int, s: seq<T>)
    ensures forall y :: y in SortBy(key, s) <==> y in s
  {
    if s != [] {
      SortMembers(key, s[..|s| - 1]);
      InsertMembers(key, s[|s| - 1], SortBy(key, s[..|s| - 1]));
      assert s == s[..|s| - 1] + [s[|s| - 1]];
    }
  }

  /** The different parts of the rows, in order of appearance. */
  function Keys(rows: seq<Insn>): seq<Parts> {
    if rows == [] then []
    else
      var keys, last := Keys(rows[..|rows| - 1]), rows[|rows| - 1].parts;
      if last.None? || last.value in keys then keys else keys + [last.value]
  }

  /** The inner switches for the rows of one primary opcode; `rank` orders them as their expressions are ordered. */
  function GroupsOf(rows: seq<Insn>, rank: Parts -> int): seq<Group> {
    var keys := SortBy(rank, Keys(rows));
    seq(|keys|, k requires 0 <= k < |keys| => Group(keys[k], SortBy(ExtendedOf, WithParts(rows, keys[k]))))
  }

  /** A primary opcode that several rows share needs a form with parts in each of them. */
  predicate Emittable(insns: seq<Insn>) {
    forall i :: i in insns && |Subtable(insns, Primary(i.opcode))| > 1 ==> i.parts.Some?
  }

  /** The rows of the table by primary opcode. */
  method BuildSubtables(insns: seq<Insn>) returns (subtables: map<nat, seq<Insn>>)
    ensures forall p: nat :: p in subtables <==> Subtable(insns, p) != []
    ensures forall p :: p in subtables ==> subtables[p] == Subtable(insns, p)
  {
    subtables := map[];
    for k := 0 to |insns|
      invariant forall p: nat :: p in subtables <==> Subtable(insns[..k], p) != []
      invariant forall p :: p in subtables ==> subtables[p] == Subtable(insns[..k], p)
    {
      assert insns[..k + 1][..k] == insns[..k];
      var p := Primary(insns[k].opcode);
      if p !in subtables {
        subtables := subtables[p := []];
      }
      subtables := subtables[p := subtables[p] + [insns[k]]];
    }
    assert insns[..|insns|] == insns;
  }

  function RowsOf(groups: map<Parts, seq<Insn>>, p: Parts): seq<Insn> {
    if p in groups then groups[p] else []
  }

  /** The rows are collected by their parts. */
  ghost predicate Collected(groups: map<Parts, seq<Insn>>, keys: seq<Parts>, rows: seq<Insn>) {
    && keys == Keys(rows) && (forall p: Parts :: p in groups <==> p in keys)
    && forall p: Parts :: RowsOf(groups, p) == WithParts(rows, p)
  }

  lemma {:induction false} CollectStep(groups: map<Parts, seq<Insn>>, keys: seq<Parts>, rows: seq<Insn>, row: Insn)
    requires Collected(groups, keys, rows) && row.parts.Some?
    ensures var parts := row.parts.value;
            Collected(groups[parts := RowsOf(groups, parts) + [row]],
                      if parts in groups then keys else keys + [parts], rows + [row])
  {
    var parts := row.parts.value;
    var groups' := groups[parts := RowsOf(groups, parts) + [row]];
    OneMoreRow(rows, row);
    forall p: Parts ensures RowsOf(groups', p) == WithParts(rows + [row], p) {
      OneMoreWithParts(rows, row, p);
      OneMoreOf(groups, parts, row, p);
    }
  }

  lemma {:induction false} OneMoreOf(groups: map<Parts, seq<Insn>>, parts: Parts, row: Insn, p: Parts)
    ensures RowsOf(groups[parts := RowsOf(groups, parts) + [row]], p)
            == RowsOf(groups, p) + if p == parts then [row] else []
  {
  }

  lemma {:induction false} OneMoreRow(rows: seq<Insn>, row: Insn)
    requires row.parts.Some?
    ensures Keys(rows + [row]) == if row.parts.value in Keys(rows) then Keys(rows) else Keys(rows) + [row.parts.value]
  {
    assert (rows + [row])[..|rows|] == rows;
  }

  lemma {:induction false} OneMoreWithParts(rows: seq<Insn>, row: Insn, p: Parts)
    ensures WithParts(rows + [row], p) == WithParts(rows, p) + if row.parts == Some(p) then [row] else []
  {
    assert (rows + [row])[..|rows|] == rows;
  }

  /** Appends a row to those with its parts. */
  method AppendRow(groups: map<Parts, seq<Insn>>, keys: seq<Parts>, parts: Parts, row: Insn)
    returns (groups': map<Parts, seq<Insn>>, keys': seq<Parts>)
    ensures groups' == groups[parts := RowsOf(groups, parts) + [row]]
    ensures keys' == if parts in groups then keys else keys + [parts]
  {
    groups', keys' := groups, keys;
    if parts !in groups {
      groups' := groups'[parts := []];
      keys' := keys + [parts];
    }
    groups' := groups'[parts := groups'[parts] + [row]];
  }

  /** The rows of one primary opcode by their parts; a row whose form has no parts is an error. */
  method CollectRows(rows: seq<Insn>) returns (groups: Option<map<Parts, seq<Insn>>>, keys: seq<Parts>)
    ensures groups.Some? <==> forall i :: i in rows ==> i.parts.Some?
    ensures groups.Some? ==> Collected(groups.value, keys, rows)
  {
    var extractGroups: map<Parts, seq<Insn>> := map[];
    keys := [];
    for k := 0 to |rows|
      invariant forall i :: i in rows[..k] ==> i.parts.Some?
      invariant Collected(extractGroups, keys, rows[..k])
    {
      assert rows[..k + 1] == rows[..k] + [rows[k]];
      if rows[k].parts.None? {
        return None, [];
      }
      CollectStep(extractGroups, keys, rows[..k], rows[k]);
      extractGroups, keys := AppendRow(extractGroups, keys, rows[k].parts.value, rows[k]);
    }
    assert rows[..|rows|] == rows;
    groups := Some(extractGroups);
  }

  /** The groups of the rows of one primary opcode. */
  method BuildGroups(rows: seq<Insn>, rank: Parts -> int) returns (groups: Option<seq<Group>>)
    ensures groups.Some? <==> forall i :: i in rows ==> i.parts.Some?
    ensures groups.Some? ==> groups.value == GroupsOf(rows, rank)
  {
    var extractGroups, keys := CollectRows(rows);
    if extractGroups.None? {
      return None;
    }
    var sorted := SortBy(rank, keys);
    SortMembers(rank, keys);
    groups := Some(seq(|sorted|, k requires 0 <= k < |sorted| =>
      Group(sorted[k], SortBy(ExtendedOf, RowsOf(extractGroups.value, sorted[k])))));
  }

  /** The case of the outer switch for one primary opcode. */
  function NodeOf(rows: seq<Insn>, rank: Parts -> int): Node
    requires rows != []
  {
    if |rows| == 1 then Direct(rows[0]) else Switches(GroupsOf(rows, rank))
  }

  method GenerateLookup(insns: seq<Insn>, rank: Parts -> int) returns (tree: Option<Tree>)
    ensures tree.Some? <==> Emittable(insns)
    ensures tree.Some? ==> IsLookup(insns, rank, tree.value)
  {
    var subtables := BuildSubtables(insns);
    var left := subtables.Keys;
    var nodes: Tree := map[];
    while left != {}
      invariant left <= subtables.Keys && nodes.Keys == subtables.Keys - left
      invariant forall p :: p in nodes ==> nodes[p] == NodeOf(subtables[p], rank)
      invariant forall p, i :: p in nodes && |subtables[p]| > 1 && i in subtables[p] ==> i.parts.Some?
      decreases left
    {
      var p :| p in left;
      var rows := subtables[p];
      if |rows| == 1 {
        // The primary opcode field fully identifies the opcode.
        nodes := nodes[p := Direct(rows[0])];
      } else {
        var groups := BuildGroups(rows, rank);
        if groups.None? {
          NotEmittable(insns, p);
          return None;
        }
        nodes := nodes[p := Switches(groups.value)];
      }
      left := left - {p};
    }
    AllEmittable(insns);
    return Some(nodes);
  }

  ghost predicate IsLookup(insns: seq<Insn>, rank: Parts -> int, tree: Tree) {
    && (forall p: nat :: p in tree <==> Subtable(insns, p) != [])
    && (forall p :: p in tree ==> tree[p] == NodeOf(Subtable(insns, p), rank))
  }

  lemma {:induction false} SubtableMembers(insns: seq<Insn>, p: nat)
    ensures forall i :: i in Subtable(insns, p) <==> i in insns && Primary(i.opcode) == p
  {
    if insns != [] {
      SubtableMembers(insns[..|insns| - 1], p);
      assert insns == insns[..|insns| - 1] + [insns[|insns| - 1]];
    }
  }

  lemma {:induction false} NotEmittable(insns: seq<Insn>, p: nat)
    requires |Subtable(insns, p)| > 1 && exists i :: i in Subtable(insns, p) && i.parts.None?
    ensures !Emittable(insns)
  {
    SubtableMembers(insns, p);
  }

  lemma {:induction false} AllEmittable(insns: seq<Insn>)
    requires forall p: nat, i :: |Subtable(insns, p)| > 1 && i in Subtable(insns, p) ==> i.parts.Some?
    ensures Emittable(insns)
  {
    forall i | i in insns && |Subtable(insns, Primary(i.opcode))| > 1 ensures i.parts.Some? {
      SubtableMembers(insns, Primary(i.opcode));
    }
  }

  // ----- what the switches compute

  /** An inner switch jumps to the case with the value. */
  function Switch(rows: seq<Insn>, value: int): Option<Insn> {
    if rows == [] then None
    else if ExtendedOf(rows[0]) == value then Some(rows[0]) else Switch(rows[1..], value)
  }

  /** The inner switches one after another; a switch without the case falls through to the next. */
  function RunSwitches(groups: seq<Group>, word: nat): Option<Insn> {
    if groups == [] then None
    else
      var hit := Switch(groups[0].rows, Extended(word, groups[0].parts));
      if hit.Some? then hit else RunSwitches(groups[1..], word)
  }

  /** The emitted decoder. */
  function Decode(tree: Tree, word: nat): Option<Insn> {
    var p := Primary(word);
    if p !in tree then None
    else match tree[p]
      case Direct(row) => Some(row)
      case Switches(groups) => RunSwitches(groups, word)
  }

  /** What it means that a word is an instance of a row. */
  predicate Matches(insns: seq<Insn>, row: Insn, word: nat) {
    && Primary(word) == Primary(row.opcode)
    && (|Subtable(insns, Primary(row.opcode))| == 1
        || (row.parts.Some? && Extended(word, row.parts.value) == Extended(row.opcode, row.parts.value)))
  }

  /** The rows in the order in which their cases are emitted. */
  function Emitted(groups: seq<Group>): seq<Insn> {
    if groups == [] then [] else groups[0].rows + Emitted(groups[1..])
  }

  function EmittedFor(insns: seq<Insn>, rank: Parts -> int, p: nat): seq<Insn> {
    var rows := Subtable(insns, p);
    if |rows| <= 1 then rows else Emitted(GroupsOf(rows, rank))
  }

  /** The first row of a list that a word is an instance of. */
  function FirstMatch(insns: seq<Insn>, rows: seq<Insn>, word: nat): (r: Option<Insn>)
    ensures r.Some? ==> r.value in rows && Matches(insns, r.value, word)
    ensures r.None? ==> forall i :: i in rows ==> !Matches(insns, i, word)
  {
    if rows == [] then None
    else if Matches(insns, rows[0], word) then Some(rows[0]) else FirstMatch(insns, rows[1..], word)
  }

  lemma {:induction false} FirstMatchOfSum(insns: seq<Insn>, a: seq<Insn>, b: seq<Insn>, word: nat)
    ensures FirstMatch(insns, a + b, word)
            == if FirstMatch(insns, a, word).Some? then FirstMatch(insns, a, word) else FirstMatch(insns, b, word)
  {
    if a == [] {
      assert a + b == b;
    } else {
      assert (a + b)[1..] == a[1..] + b;
      FirstMatchOfSum(insns, a[1..], b, word);
    }
  }

  /** All rows have the parts of their group and share the word's primary opcode, and the primary does not decide. */
  predicate Grouped(insns: seq<Insn>, rows: seq<Insn>, parts: Parts, word: nat) {
    forall i :: i in rows ==> i.parts == Some(parts) && Primary(i.opcode) == Primary(word)
                              && |Subtable(insns, Primary(word))| > 1
  }

  /** One switch is a linear search of its rows. */
  lemma {:induction false} SwitchIsSearch(insns: seq<Insn>, rows: seq<Insn>, parts: Parts, word: nat)
    requires Grouped(insns, rows, parts, word)
    ensures Switch(rows, Extended(word, parts)) == FirstMatch(insns, rows, word)
  {
    if rows != [] {
      assert rows[0] in rows;
      assert forall i :: i in rows[1..] ==> i in rows;
      SwitchIsSearch(insns, rows[1..], parts, word);
    }
  }

  /** Falling through the switches is a linear search of all their rows. */
  lemma {:induction false} SwitchesAreSearch(insns: seq<Insn>, groups: seq<Group>, word: nat)
    requires forall k :: 0 <= k < |groups| ==> Grouped(insns, groups[k].rows, groups[k].parts, word)
    ensures RunSwitches(groups, word) == FirstMatch(insns, Emitted(groups), word)
  {
    if groups != [] {
      SwitchIsSearch(insns, groups[0].rows, groups[0].parts, word);
      SwitchesAreSearch(insns, groups[1..], word);
      FirstMatchOfSum(insns, groups[0].rows, Emitted(groups[1..]), word);
    }
  }

  lemma {:induction false} WithPartsMembers(rows: seq<Insn>, parts: Parts)
    ensures forall i :: i in WithParts(rows, parts) <==> i in rows && i.parts == Some(parts)
  {
    if rows != [] {
      WithPartsMembers(rows[..|rows| - 1], parts);
      assert rows == rows[..|rows| - 1] + [rows[|rows| - 1]];
    }
  }

  lemma {:induction false} KeysMembers(rows: seq<Insn>)
    ensures forall p: Parts :: p in Keys(rows) <==> exists i :: i in rows && i.parts == Some(p)
  {
    if rows != [] {
      KeysMembers(rows[..|rows| - 1]);
      assert rows == rows[..|rows| - 1] + [rows[|rows| - 1]];
    }
  }

  /** The rows of a group are those of the subtable with its parts. */
  lemma {:induction false} GroupRows(rows: seq<Insn>, rank: Parts -> int, k: nat)
    requires k < |GroupsOf(rows, rank)|
    ensures var g := GroupsOf(rows, rank)[k];
            forall i :: i in g.rows <==> i in rows && i.parts == Some(g.parts)
  {
    var g := GroupsOf(rows, rank)[k];
    SortMembers(ExtendedOf, WithParts(rows, g.parts));
    WithPartsMembers(rows, g.parts);
  }

  lemma {:induction false} EmittedMembers(groups: seq<Group>, i: Insn)
    ensures i in Emitted(groups) <==> exists k :: 0 <= k < |groups| && i in groups[k].rows
  {
    if groups != [] {
      EmittedMembers(groups[1..], i);
      if i in Emitted(groups[1..]) {
        var k :| 0 <= k < |groups[1..]| && i in groups[1..][k].rows;
        assert i in groups[k + 1].rows;
      }
      if exists k :: 0 <= k < |groups| && i in groups[k].rows {
        var k :| 0 <= k < |groups| && i in groups[k].rows;
        assert k > 0 ==> i in groups[1..][k - 1].rows;
      }
    }
  }

  /** A row with parts is in the group of its parts. */
  lemma {:induction false} RowHasGroup(rows: seq<Insn>, rank: Parts -> int, i: Insn) returns (k: nat)
    requires i in rows && i.parts.Some?
    ensures k < |GroupsOf(rows, rank)| && i in GroupsOf(rows, rank)[k].rows
  {
    KeysMembers(rows);
    SortMembers(rank, Keys(rows));
    var keys := SortBy(rank, Keys(rows));
    assert i.parts.value in keys;
    k :| 0 <= k < |keys| && keys[k] == i.parts.value;
    GroupRows(rows, rank, k);
  }

  lemma {:induction false} GroupsHaveRows(rows: seq<Insn>, rank: Parts -> int, i: Insn)
    requires forall r :: r in rows ==> r.parts.Some?
    ensures i in Emitted(GroupsOf(rows, rank)) <==> i in rows
  {
    var groups := GroupsOf(rows, rank);
    EmittedMembers(groups, i);
    if i in rows {
      var k := RowHasGroup(rows, rank, i);
    }
    if i in Emitted(groups) {
      var k :| 0 <= k < |groups| && i in groups[k].rows;
      GroupRows(rows, rank, k);
    }
  }

  /** Exactly the rows of the subtable are emitted. */
  lemma {:induction false} EmittedAll(insns: seq<Insn>, rank: Parts -> int, p: nat, i: Insn)
    requires Emittable(insns)
    ensures i in EmittedFor(insns, rank, p) <==> i in insns && Primary(i.opcode) == p
  {
    SubtableMembers(insns, p);
    if |Subtable(insns, p)| > 1 {
      GroupsHaveRows(Subtable(insns, p), rank, i);
    }
  }

  /** For every word the nested switches give the first row, in the order of emission, that the word is an instance
      of. */
  lemma {:induction false} DecodeIsFirstMatch(insns: seq<Insn>, rank: Parts -> int, tree: Tree, word: nat)
    requires Emittable(insns) && IsLookup(insns, rank, tree)
    ensures Decode(tree, word) == FirstMatch(insns, EmittedFor(insns, rank, Primary(word)), word)
  {
    var p := Primary(word);
    var rows := Subtable(insns, p);
    SubtableMembers(insns, p);
    if |rows| > 1 {
      var groups := GroupsOf(rows, rank);
      forall k | 0 <= k < |groups| ensures Grouped(insns, groups[k].rows, groups[k].parts, word) {
        GroupRows(rows, rank, k);
      }
      SwitchesAreSearch(insns, groups, word);
    } else if |rows| == 1 {
      assert rows[0] in rows;
    }
  }

  /** No word is an instance of two different rows. */
  ghost predicate Unambiguous(insns: seq<Insn>) {
    forall word: nat, i, j {:trigger Matches(insns, i, word), Matches(insns, j, word)} ::
      i in insns && j in insns && Matches(insns, i, word) && Matches(insns, j, word) ==> i == j
  }

  /** Every instance of every row decodes to that row, so in particular the row's own word, exactly when no word is an
      instance of two rows. A word decodes to nothing exactly when it is no instance of any. */
  lemma {:induction false} DecodesToOwnRow(insns: seq<Insn>, rank: Parts -> int, tree: Tree)
    requires Emittable(insns) && IsLookup(insns, rank, tree)
    ensures Unambiguous(insns) <==>
              forall word: nat, i {:trigger Matches(insns, i, word)} ::
                i in insns && Matches(insns, i, word) ==> Decode(tree, word) == Some(i)
    ensures forall word: nat :: Decode(tree, word) == None <==> forall i :: i in insns ==> !Matches(insns, i, word)
  {
    forall word: nat
      ensures Decode(tree, word).Some? ==>
                Decode(tree, word).value in insns && Matches(insns, Decode(tree, word).value, word)
      ensures Decode(tree, word).None? ==> forall i :: i in insns ==> !Matches(insns, i, word)
    {
      DecodeIsFirstMatch(insns, rank, tree, word);
      forall i
        ensures i in EmittedFor(insns, rank, Primary(word)) <==> i in insns && Primary(i.opcode) == Primary(word)
      {
        EmittedAll(insns, rank, Primary(word), i);
      }
    }
  }

}
