/**
 * The declared network: the node declarations and edge strings of the
 * config file, already decoded from JSON, are checked and turned into the
 * `network` dictionary (node name to node record, in declaration order)
 * and the table from CSV column name to node name.
 *
 * The checks run in the order of the program and the first failing check
 * decides the error; the program then exits, so the partly built network
 * is never used again and the model does not describe it.
 */
module Declarations {
  import opened Basics
  import opened Formats
  import Conditions

  // ------------------------------------------------------------------
  // Entities
  // ------------------------------------------------------------------

  /** A node declaration: `name`, the optional `csv_name`, `values` and `position`. */
  datatype NodeDecl = NodeDecl(name: string, csvName: Option<string>, values: seq<string>, position: string)

  /** A node of the network; parents and children are held by name. */
  datatype Node = Node(name: string, csvName: string, values: seq<string>,
                       parents: seq<string>, children: seq<string>, position: Position)

  /** The first fault among the values of one node. */
  datatype ValueFault =
    | BadValue(j: nat)            // value `j` does not match `^.+$`
    | SameValue(j: nat, k: nat)   // value `j` equals the earlier value `k`

  /** Why the node declarations are rejected. */
  datatype NodeError =
    | NoNodes
    | BadName(i: nat)
    | NameExists(i: nat)
    | CsvNameExists(i: nat)
    | BadValues(i: nat, fault: ValueFault)
    | BadPosition(i: nat)

  /** Why an edge string is rejected. */
  datatype EdgeError =
    | BadEdge(i: nat)
    | NoSource(i: nat)
    | NoTarget(i: nat)

  /** The CSV column of a declared node: its `csv_name`, or else its name. */
  function CsvNameOf(d: NodeDecl): string {
    if d.csvName.Some? then d.csvName.value else d.name
  }

  // ------------------------------------------------------------------
  // The values of one node
  // ------------------------------------------------------------------

  /** The first index `m` in `[k, j)` with `values[m] == values[j]`, if any. */
  function FirstEqual(values: seq<string>, j: nat, k: nat): (r: Option<nat>)
    requires k <= j < |values|
    ensures r.Some? ==> k <= r.value < j && values[r.value] == values[j]
    ensures r.Some? ==> forall m :: k <= m < r.value ==> values[m] != values[j]
    ensures r.None? ==> forall m :: k <= m < j ==> values[m] != values[j]
    decreases j - k
  {
    if k == j then None
    else if values[k] == values[j] then Some(k)
    else FirstEqual(values, j, k + 1)
  }

  /** The first fault among `values[..n]`, in the order the values are checked. */
  function ValuesFault(values: seq<string>, n: nat): Option<ValueFault>
    requires n <= |values|
  {
    if n == 0 then None
    else match ValuesFault(values, n - 1)
      case Some(f) => Some(f)
      case None =>
        if !ValidValue(values[n - 1]) then Some(BadValue(n - 1))
        else match FirstEqual(values, n - 1, 0)
          case Some(k) => Some(SameValue(n - 1, k))
          case None => None
  }

  /** Every value is well formed and no value repeats an earlier one. */
  predicate ValidValues(values: seq<string>) {
    (forall j :: 0 <= j < |values| ==> ValidValue(values[j])) && Distinct(values)
  }

  /** A fault, once found, is the one reported however many values follow. */
  lemma {:induction false} ValuesFaultSticky(values: seq<string>, n: nat, m: nat)
    requires n <= m <= |values| && ValuesFault(values, n).Some?
    ensures ValuesFault(values, m) == ValuesFault(values, n)
    decreases m
  {
    if m > n {
      ValuesFaultSticky(values, n, m - 1);
    }
  }

  /** No fault among the first `n` values exactly when they are well formed and pairwise different. */
  lemma {:induction false} ValuesFaultNonePrefix(values: seq<string>, n: nat)
    requires n <= |values|
    ensures ValuesFault(values, n).None? <==>
      (forall j :: 0 <= j < n ==> ValidValue(values[j])) && (forall i, j :: 0 <= i < j < n ==> values[i] != values[j])
  {
    if n > 0 {
      ValuesFaultNonePrefix(values, n - 1);
    }
  }

  /** The values are accepted exactly when they are well formed and pairwise different. */
  lemma ValuesFaultNone(values: seq<string>)
    ensures ValuesFault(values, |values|).None? <==> ValidValues(values)
  {
    ValuesFaultNonePrefix(values, |values|);
  }

  /**
   * A reported fault is the first one: every earlier value is well formed
   * and new, and the faulty value is malformed, or else equals the value at
   * `k` and no value before `k`.
   */
  lemma {:induction false} ValuesFaultFirst(values: seq<string>, n: nat)
    requires n <= |values| && ValuesFault(values, n).Some?
    ensures var f := ValuesFault(values, n).value;
      f.j < n
      && (forall i :: 0 <= i < f.j ==> ValidValue(values[i]))
      && (forall i, i' :: 0 <= i < i' < f.j ==> values[i] != values[i'])
      && (f.BadValue? ==> !ValidValue(values[f.j]))
      && (f.SameValue? ==> ValidValue(values[f.j]) && f.k < f.j && values[f.k] == values[f.j]
                           && forall m :: 0 <= m < f.k ==> values[m] != values[f.j])
  {
    if ValuesFault(values, n - 1).Some? {
      ValuesFaultFirst(values, n - 1);
    } else {
      ValuesFaultNonePrefix(values, n - 1);
    }
  }

  /**
   * The value loop of one node: each value is checked in turn against the
   * format and against every earlier value, and appended to the node.
   */
  method CheckValues(values: seq<string>) returns (fault: Option<ValueFault>, accepted: seq<string>)
    ensures fault == ValuesFault(values, |values|)
    ensures fault.None? ==> accepted == values
  {
    accepted := [];
    var j := 0;
    while j < |values|
      invariant 0 <= j <= |values|
      invariant ValuesFault(values, j).None?
      invariant accepted == values[..j]
    {
      if !ValidValue(values[j]) {
        ValuesFaultSticky(values, j + 1, |values|);
        return Some(BadValue(j)), accepted;
      }
      var k := 0;
      while k < j
        invariant 0 <= k <= j
        invariant forall m :: 0 <= m < k ==> values[m] != values[j]
      {
        if values[k] == values[j] {
          assert FirstEqual(values, j, 0) == Some(k);
          ValuesFaultSticky(values, j + 1, |values|);
          return Some(SameValue(j, k)), accepted;
        }
        k := k + 1;
      }
      accepted := accepted + [values[j]];
      j := j + 1;
    }
    fault := None;
  }

  // ------------------------------------------------------------------
  // Declaring the nodes
  // ------------------------------------------------------------------

  /** The state the declarations build: the declaration order, the nodes and the CSV-name table. */
  datatype Declared = Declared(order: seq<string>, nodes: map<string, Node>, csvNames: map<string, string>)

  /** The fault of declaration `i`, given the names and CSV names taken before it. */
  function DeclFault(d: NodeDecl, i: nat, names: set<string>, csvs: set<string>): (r: Option<NodeError>)
    ensures r.None? ==> ParsePosition(d.position).Some?
  {
    if !ValidName(d.name) then Some(BadName(i))
    else if d.name in names then Some(NameExists(i))
    else if CsvNameOf(d) in csvs then Some(CsvNameExists(i))
    else match ValuesFault(d.values, |d.values|)
      case Some(f) => Some(BadValues(i, f))
      case None => if ParsePosition(d.position).None? then Some(BadPosition(i)) else None
  }

  /** The node a declaration creates: no parents and no children yet. */
  function NewNode(d: NodeDecl): Node
    requires ParsePosition(d.position).Some?
  {
    Node(d.name, CsvNameOf(d), d.values, [], [], ParsePosition(d.position).value)
  }

  /** Add a declared node to the network and its CSV name to the table. */
  function AddNode(st: Declared, d: NodeDecl): Declared
    requires ParsePosition(d.position).Some?
  {
    Declared(st.order + [d.name], st.nodes[d.name := NewNode(d)], st.csvNames[CsvNameOf(d) := d.name])
  }

  /** Declare `decls[i..]` one by one, stopping at the first fault. */
  function DeclareFrom(st: Declared, decls: seq<NodeDecl>, i: nat): Result<Declared, NodeError>
    requires i <= |decls|
    decreases |decls| - i
  {
    if i == |decls| then Ok(st)
    else match DeclFault(decls[i], i, st.nodes.Keys, st.csvNames.Keys)
      case Some(e) => Err(e)
      case None => DeclareFrom(AddNode(st, decls[i]), decls, i + 1)
  }

  /** Declare all nodes; an empty list of declarations is refused. */
  function Declare(st: Declared, decls: seq<NodeDecl>): Result<Declared, NodeError> {
    if |decls| == 0 then Err(NoNodes) else DeclareFrom(st, decls, 0)
  }

  /** A declaration that passes every check on its own. */
  predicate WellDeclared(d: NodeDecl) {
    ValidName(d.name) && ValidValues(d.values) && ParsePosition(d.position).Some?
  }

  /** The names and CSV names of `decls[i..]` are new and pairwise different. */
  predicate Fresh(decls: seq<NodeDecl>, i: nat, names: set<string>, csvs: set<string>) {
    forall j :: i <= j < |decls| ==>
      decls[j].name !in names && CsvNameOf(decls[j]) !in csvs
      && forall k :: i <= k < j ==> decls[k].name != decls[j].name && CsvNameOf(decls[k]) != CsvNameOf(decls[j])
  }

  lemma FreshStep(decls: seq<NodeDecl>, i: nat, names: set<string>, csvs: set<string>)
    requires i < |decls|
    ensures Fresh(decls, i, names, csvs) <==>
      decls[i].name !in names && CsvNameOf(decls[i]) !in csvs
      && Fresh(decls, i + 1, names + {decls[i].name}, csvs + {CsvNameOf(decls[i])})
  {
  }

  lemma DeclFaultNone(d: NodeDecl, i: nat, names: set<string>, csvs: set<string>)
    ensures DeclFault(d, i, names, csvs).None? <==> WellDeclared(d) && d.name !in names && CsvNameOf(d) !in csvs
  {
    ValuesFaultNone(d.values);
  }

  /** The declarations of `decls[i..]` each pass their own checks. */
  predicate AllWellDeclared(decls: seq<NodeDecl>, i: nat) {
    forall j :: i <= j < |decls| ==> WellDeclared(decls[j])
  }

  lemma AllWellDeclaredStep(decls: seq<NodeDecl>, i: nat)
    requires i < |decls|
    ensures AllWellDeclared(decls, i) <==> WellDeclared(decls[i]) && AllWellDeclared(decls, i + 1)
  {
  }

  lemma {:induction false} DeclareFromOkSound(st: Declared, decls: seq<NodeDecl>, i: nat)
    requires i <= |decls| && DeclareFrom(st, decls, i).Ok?
    ensures AllWellDeclared(decls, i) && Fresh(decls, i, st.nodes.Keys, st.csvNames.Keys)
    decreases |decls| - i
  {
    if i < |decls| {
      var d := decls[i];
      DeclareFromStep(st, decls, i);
      DeclFaultNone(d, i, st.nodes.Keys, st.csvNames.Keys);
      var st' := AddNode(st, d);
      assert st'.nodes.Keys == st.nodes.Keys + {d.name};
      assert st'.csvNames.Keys == st.csvNames.Keys + {CsvNameOf(d)};
      DeclareFromOkSound(st', decls, i + 1);
      FreshStep(decls, i, st.nodes.Keys, st.csvNames.Keys);
      AllWellDeclaredStep(decls, i);
    }
  }

  lemma {:induction false} DeclareFromOkComplete(st: Declared, decls: seq<NodeDecl>, i: nat)
    requires i <= |decls| && AllWellDeclared(decls, i) && Fresh(decls, i, st.nodes.Keys, st.csvNames.Keys)
    ensures DeclareFrom(st, decls, i).Ok?
    decreases |decls| - i
  {
    if i < |decls| {
      var d := decls[i];
      FreshStep(decls, i, st.nodes.Keys, st.csvNames.Keys);
      AllWellDeclaredStep(decls, i);
      DeclFaultNone(d, i, st.nodes.Keys, st.csvNames.Keys);
      var st' := AddNode(st, d);
      assert st'.nodes.Keys == st.nodes.Keys + {d.name};
      assert st'.csvNames.Keys == st.csvNames.Keys + {CsvNameOf(d)};
      DeclareFromOkComplete(st', decls, i + 1);
      DeclareFromNext(st, decls, i);
    }
  }

  /**
   * The declarations are accepted exactly when there is at least one, each
   * passes its own checks, and names and CSV names are new and pairwise
   * different.
   */
  lemma DeclareOk(st: Declared, decls: seq<NodeDecl>)
    ensures Declare(st, decls).Ok? <==>
      |decls| > 0 && AllWellDeclared(decls, 0) && Fresh(decls, 0, st.nodes.Keys, st.csvNames.Keys)
  {
    if Declare(st, decls).Ok? {
      DeclareFromOkSound(st, decls, 0);
    }
    if |decls| > 0 && AllWellDeclared(decls, 0) && Fresh(decls, 0, st.nodes.Keys, st.csvNames.Keys) {
      DeclareFromOkComplete(st, decls, 0);
    }
  }

  /** The names of `decls[i..]`, in order. */
  function NamesFrom(decls: seq<NodeDecl>, i: nat): (r: seq<string>)
    requires i <= |decls|
    ensures |r| == |decls| - i && forall j :: i <= j < |decls| ==> r[j - i] == decls[j].name
    decreases |decls| - i
  {
    if i == |decls| then [] else [decls[i].name] + NamesFrom(decls, i + 1)
  }

  lemma {:induction false} DeclareFromOrder(st: Declared, decls: seq<NodeDecl>, i: nat)
    requires i <= |decls| && DeclareFrom(st, decls, i).Ok?
    ensures DeclareFrom(st, decls, i).value.order == st.order + NamesFrom(decls, i)
    decreases |decls| - i
  {
    if i < |decls| {
      var n := decls[i].name;
      DeclareFromOrder(AddNode(st, decls[i]), decls, i + 1);
      assert NamesFrom(decls, i) == [n] + NamesFrom(decls, i + 1);
      assert (st.order + [n]) + NamesFrom(decls, i + 1) == st.order + ([n] + NamesFrom(decls, i + 1));
    }
  }

  /** Accepted declarations leave every existing node and CSV name as it was. */
  lemma {:induction false} DeclareFromKeeps(st: Declared, decls: seq<NodeDecl>, i: nat, n: string, c: string)
    requires i <= |decls| && DeclareFrom(st, decls, i).Ok?
    ensures var st' := DeclareFrom(st, decls, i).value;
      (n in st.nodes ==> n in st'.nodes && st'.nodes[n] == st.nodes[n])
      && (c in st.csvNames ==> c in st'.csvNames && st'.csvNames[c] == st.csvNames[c])
    decreases |decls| - i
  {
    if i < |decls| {
      DeclareFromKeeps(AddNode(st, decls[i]), decls, i + 1, n, c);
    }
  }

  /** An accepted list passes the checks of its first declaration and goes on from the extended network. */
  lemma DeclareFromStep(st: Declared, decls: seq<NodeDecl>, i: nat)
    requires i < |decls| && DeclareFrom(st, decls, i).Ok?
    ensures DeclFault(decls[i], i, st.nodes.Keys, st.csvNames.Keys).None?
    ensures DeclareFrom(AddNode(st, decls[i]), decls, i + 1) == DeclareFrom(st, decls, i)
  {
  }

  /** Declaration `j` of an accepted list creates its node and its CSV-name entry. */
  lemma {:induction false} DeclareFromAdds(st: Declared, decls: seq<NodeDecl>, i: nat, j: nat)
    requires i <= j < |decls| && DeclareFrom(st, decls, i).Ok?
    ensures var st' := DeclareFrom(st, decls, i).value;
      ParsePosition(decls[j].position).Some?
      && decls[j].name in st'.nodes && st'.nodes[decls[j].name] == NewNode(decls[j])
      && CsvNameOf(decls[j]) in st'.csvNames && st'.csvNames[CsvNameOf(decls[j])] == decls[j].name
    decreases |decls| - i
  {
    DeclareFromStep(st, decls, i);
    if j == i {
      var st1 := AddNode(st, decls[i]);
      assert st1.nodes[decls[i].name] == NewNode(decls[i]);
      DeclareFromKeeps(st1, decls, i + 1, decls[i].name, CsvNameOf(decls[i]));
    } else {
      DeclareFromAdds(AddNode(st, decls[i]), decls, i + 1, j);
    }
  }

  /** An accepted list creates no node other than the declared ones. */
  lemma {:induction false} DeclareFromOnly(st: Declared, decls: seq<NodeDecl>, i: nat, n: string)
    requires i <= |decls| && DeclareFrom(st, decls, i).Ok?
    requires n in DeclareFrom(st, decls, i).value.nodes
    ensures n in st.nodes || exists j :: i <= j < |decls| && decls[j].name == n
    decreases |decls| - i
  {
    if i < |decls| {
      DeclareFromOnly(AddNode(st, decls[i]), decls, i + 1, n);
    }
  }

  /**
   * Accepted declarations append their names to the order, add one new
   * node each (no parents, no children, the declared values and position)
   * with its CSV name in the table, keep every earlier node and add nothing else.
   */
  lemma DeclareResult(st: Declared, decls: seq<NodeDecl>)
    requires Declare(st, decls).Ok?
    ensures var st' := Declare(st, decls).value;
      st'.order == st.order + NamesFrom(decls, 0)
      && (forall n :: n in st.nodes ==> n in st'.nodes && st'.nodes[n] == st.nodes[n])
      && (forall j :: 0 <= j < |decls| ==>
            ParsePosition(decls[j].position).Some?
            && decls[j].name in st'.nodes && st'.nodes[decls[j].name] == NewNode(decls[j])
            && CsvNameOf(decls[j]) in st'.csvNames && st'.csvNames[CsvNameOf(decls[j])] == decls[j].name)
      && (forall n :: n in st'.nodes ==> n in st.nodes || exists j :: 0 <= j < |decls| && decls[j].name == n)
  {
    var st' := Declare(st, decls).value;
    DeclareFromOrder(st, decls, 0);
    forall n | n in st.nodes
      ensures n in st'.nodes && st'.nodes[n] == st.nodes[n]
    {
      DeclareFromKeeps(st, decls, 0, n, n);
    }
    forall j | 0 <= j < |decls|
      ensures ParsePosition(decls[j].position).Some?
        && decls[j].name in st'.nodes && st'.nodes[decls[j].name] == NewNode(decls[j])
        && CsvNameOf(decls[j]) in st'.csvNames && st'.csvNames[CsvNameOf(decls[j])] == decls[j].name
    {
      DeclareFromAdds(st, decls, 0, j);
    }
    forall n | n in st'.nodes
      ensures n in st.nodes || exists j :: 0 <= j < |decls| && decls[j].name == n
    {
      DeclareFromOnly(st, decls, 0, n);
    }
  }

  /** The index of the declaration an error names. */
  function ErrorIndex(e: NodeError): nat {
    match e
    case NoNodes => 0
    case BadName(i) => i
    case NameExists(i) => i
    case CsvNameExists(i) => i
    case BadValues(i, _) => i
    case BadPosition(i) => i
  }

  /**
   * What a fault of one declaration says about it: each kind arises exactly
   * when its check fails and every check before it passes, in the order
   * name format, name taken, CSV name taken, values, position.
   */
  lemma DeclFaultMeaning(d: NodeDecl, i: nat, names: set<string>, csvs: set<string>)
    ensures DeclFault(d, i, names, csvs).Some? ==>
      !DeclFault(d, i, names, csvs).value.NoNodes? && ErrorIndex(DeclFault(d, i, names, csvs).value) == i
    ensures DeclFault(d, i, names, csvs) == Some(BadName(i)) <==> !ValidName(d.name)
    ensures DeclFault(d, i, names, csvs) == Some(NameExists(i)) <==> ValidName(d.name) && d.name in names
    ensures DeclFault(d, i, names, csvs) == Some(CsvNameExists(i)) <==>
      ValidName(d.name) && d.name !in names && CsvNameOf(d) in csvs
    ensures (DeclFault(d, i, names, csvs).Some? && DeclFault(d, i, names, csvs).value.BadValues?) <==>
      ValidName(d.name) && d.name !in names && CsvNameOf(d) !in csvs && !ValidValues(d.values)
    ensures DeclFault(d, i, names, csvs).Some? && DeclFault(d, i, names, csvs).value.BadValues? ==>
      ValuesFault(d.values, |d.values|) == Some(DeclFault(d, i, names, csvs).value.fault)
    ensures DeclFault(d, i, names, csvs) == Some(BadPosition(i)) <==>
      ValidName(d.name) && d.name !in names && CsvNameOf(d) !in csvs && ValidValues(d.values)
      && ParsePosition(d.position).None?
  {
    ValuesFaultNone(d.values);
  }

  /** The names taken once `decls[i..x]` are declared on top of `names`. */
  function Taken(names: set<string>, decls: seq<NodeDecl>, i: nat, x: nat): (r: set<string>)
    requires i <= x <= |decls|
    ensures forall n :: n in r <==> n in names || exists j :: i <= j < x && decls[j].name == n
    decreases x - i
  {
    if i == x then names else Taken(names + {decls[i].name}, decls, i + 1, x)
  }

  /** The CSV names taken once `decls[i..x]` are declared on top of `csvs`. */
  function CsvsTaken(csvs: set<string>, decls: seq<NodeDecl>, i: nat, x: nat): (r: set<string>)
    requires i <= x <= |decls|
    ensures forall c :: c in r <==> c in csvs || exists j :: i <= j < x && CsvNameOf(decls[j]) == c
    decreases x - i
  {
    if i == x then csvs else CsvsTaken(csvs + {CsvNameOf(decls[i])}, decls, i + 1, x)
  }

  /** The fault of declaration `x` once `decls[i..x]` are declared into `st`. */
  function FaultAfter(st: Declared, decls: seq<NodeDecl>, i: nat, x: nat): Option<NodeError>
    requires i <= x < |decls|
  {
    DeclFault(decls[x], x, Taken(st.nodes.Keys, decls, i, x), CsvsTaken(st.csvNames.Keys, decls, i, x))
  }

  /**
   * The error is the fault of a declaration `x` of `decls[i..]`, checked
   * against the names declared before it, and every declaration before `x`
   * passes all of its checks.
   */
  predicate FaultPlace(st: Declared, decls: seq<NodeDecl>, i: nat, e: NodeError) {
    var x := ErrorIndex(e);
    !e.NoNodes? && i <= x < |decls|
    && (forall j :: i <= j < x ==> FaultAfter(st, decls, i, j).None?)
    && FaultAfter(st, decls, i, x) == Some(e)
  }

  /** The name of declaration `x` is neither a node of `st` nor the name of an earlier declaration of `decls[i..]`. */
  predicate NameFree(st: Declared, decls: seq<NodeDecl>, i: nat, x: nat)
    requires x < |decls|
  {
    decls[x].name !in st.nodes && forall j :: i <= j < x ==> decls[j].name != decls[x].name
  }

  /** The same for the CSV name of declaration `x`. */
  predicate CsvFree(st: Declared, decls: seq<NodeDecl>, i: nat, x: nat)
    requires x < |decls|
  {
    CsvNameOf(decls[x]) !in st.csvNames && forall j :: i <= j < x ==> CsvNameOf(decls[j]) != CsvNameOf(decls[x])
  }

  /**
   * What the error says about declaration `x`: the check it names fails and
   * every check before it passes; a clash is with a node present or
   * declared earlier in `decls[i..]`.
   */
  predicate FaultKind(st: Declared, decls: seq<NodeDecl>, i: nat, e: NodeError)
    requires ErrorIndex(e) < |decls|
  {
    var x := ErrorIndex(e);
    (e.BadName? ==> !ValidName(decls[x].name))
    && (e.NameExists? ==> ValidName(decls[x].name) && !NameFree(st, decls, i, x))
    && (e.CsvNameExists? ==> ValidName(decls[x].name) && NameFree(st, decls, i, x) && !CsvFree(st, decls, i, x))
    && (e.BadValues? ==>
          ValidName(decls[x].name) && NameFree(st, decls, i, x) && CsvFree(st, decls, i, x)
          && ValuesFault(decls[x].values, |decls[x].values|) == Some(e.fault))
    && (e.BadPosition? ==>
          ValidName(decls[x].name) && NameFree(st, decls, i, x) && CsvFree(st, decls, i, x)
          && ValidValues(decls[x].values) && ParsePosition(decls[x].position).None?)
  }

  /** A list whose first declaration passes its checks goes on from the extended network. */
  lemma DeclareFromNext(st: Declared, decls: seq<NodeDecl>, i: nat)
    requires i < |decls| && DeclFault(decls[i], i, st.nodes.Keys, st.csvNames.Keys).None?
    ensures DeclareFrom(st, decls, i) == DeclareFrom(AddNode(st, decls[i]), decls, i + 1)
  {
  }

  /** Declaring `decls[i]` first takes its names, so the later faults are unchanged. */
  lemma FaultAfterStep(st: Declared, decls: seq<NodeDecl>, i: nat, x: nat)
    requires i < x < |decls| && ParsePosition(decls[i].position).Some?
    ensures FaultAfter(AddNode(st, decls[i]), decls, i + 1, x) == FaultAfter(st, decls, i, x)
  {
    var st1 := AddNode(st, decls[i]);
    assert st1.nodes.Keys == st.nodes.Keys + {decls[i].name};
    assert st1.csvNames.Keys == st.csvNames.Keys + {CsvNameOf(decls[i])};
  }

  lemma {:induction false} DeclareFromErrorPlace(st: Declared, decls: seq<NodeDecl>, i: nat)
    requires i <= |decls| && DeclareFrom(st, decls, i).Err?
    ensures FaultPlace(st, decls, i, DeclareFrom(st, decls, i).error)
    decreases |decls| - i
  {
    var d := decls[i];
    if DeclFault(d, i, st.nodes.Keys, st.csvNames.Keys).None? {
      var st1 := AddNode(st, d);
      DeclareFromNext(st, decls, i);
      DeclareFromErrorPlace(st1, decls, i + 1);
      var e := DeclareFrom(st, decls, i).error;
      var x := ErrorIndex(e);
      forall j | i <= j < x
        ensures FaultAfter(st, decls, i, j).None?
      {
        if j > i {
          FaultAfterStep(st, decls, i, j);
        }
      }
      FaultAfterStep(st, decls, i, x);
    } else {
      DeclFaultMeaning(d, i, st.nodes.Keys, st.csvNames.Keys);
    }
  }

  /** The fault a place names is explained by what is taken before it. */
  lemma DeclareFromErrorKind(st: Declared, decls: seq<NodeDecl>, i: nat)
    requires i <= |decls| && DeclareFrom(st, decls, i).Err?
    ensures ErrorIndex(DeclareFrom(st, decls, i).error) < |decls|
    ensures FaultKind(st, decls, i, DeclareFrom(st, decls, i).error)
  {
    var e := DeclareFrom(st, decls, i).error;
    DeclareFromErrorPlace(st, decls, i);
    var x := ErrorIndex(e);
    var names := Taken(st.nodes.Keys, decls, i, x);
    var csvs := CsvsTaken(st.csvNames.Keys, decls, i, x);
    DeclFaultMeaning(decls[x], x, names, csvs);
    ValuesFaultNone(decls[x].values);
    assert decls[x].name in names <==> !NameFree(st, decls, i, x);
    assert CsvNameOf(decls[x]) in csvs <==> !CsvFree(st, decls, i, x);
  }

  /** Declaration `x` is the first faulty one of `decls[i..]` and `e` says what is wrong with it. */
  predicate FaultExplained(st: Declared, decls: seq<NodeDecl>, i: nat, e: NodeError) {
    FaultPlace(st, decls, i, e) && FaultKind(st, decls, i, e)
  }

  /**
   * A rejected list is rejected at its first faulty declaration: the ones
   * before it pass all of their checks, and the error says what is wrong with
   * that declaration (a clash is with a node declared earlier or already present).
   */
  lemma DeclareFromError(st: Declared, decls: seq<NodeDecl>, i: nat)
    requires i <= |decls| && DeclareFrom(st, decls, i).Err?
    ensures FaultExplained(st, decls, i, DeclareFrom(st, decls, i).error)
  {
    DeclareFromErrorPlace(st, decls, i);
    DeclareFromErrorKind(st, decls, i);
  }

  /**
   * The order lists each node once, a node is stored under its own name,
   * the CSV-name table and the nodes' CSV names agree, and parents and
   * children are nodes too.
   */
  ghost predicate WellFormed(st: Declared) {
    Distinct(st.order)
    && (forall n :: n in st.order <==> n in st.nodes)
    && Tabled(st)
    && Linked(st.nodes)
  }

  /** Every node is stored under its own name and the CSV-name table maps each node's CSV name back to it. */
  ghost predicate Tabled(st: Declared) {
    (forall n :: n in st.nodes ==>
       st.nodes[n].name == n
       && st.nodes[n].csvName in st.csvNames && st.csvNames[st.nodes[n].csvName] == n)
    && (forall c :: c in st.csvNames ==> st.csvNames[c] in st.nodes && st.nodes[st.csvNames[c]].csvName == c)
  }

  /** Every parent and every child of a node is a node. */
  ghost predicate Linked(nodes: map<string, Node>) {
    forall n :: n in nodes ==>
      (forall m :: m in nodes[n].parents ==> m in nodes) && (forall m :: m in nodes[n].children ==> m in nodes)
  }

  lemma AddNodeTabled(st: Declared, d: NodeDecl)
    requires Tabled(st) && ParsePosition(d.position).Some?
    requires d.name !in st.nodes && CsvNameOf(d) !in st.csvNames
    ensures Tabled(AddNode(st, d))
  {
  }

  lemma AddNodeLinked(st: Declared, d: NodeDecl)
    requires Linked(st.nodes) && ParsePosition(d.position).Some?
    ensures Linked(AddNode(st, d).nodes)
  {
  }

  /** Adding a node with a new name and a new CSV name keeps the network well formed. */
  lemma AddNodeWellFormed(st: Declared, d: NodeDecl)
    requires WellFormed(st) && ParsePosition(d.position).Some?
    requires d.name !in st.nodes && CsvNameOf(d) !in st.csvNames
    ensures WellFormed(AddNode(st, d))
  {
    var st' := AddNode(st, d);
    assert d.name !in st.order;
    assert Distinct(st'.order);
    AddNodeTabled(st, d);
    AddNodeLinked(st, d);
  }

  /** Declaring nodes keeps the network well formed. */
  lemma {:induction false} DeclareFromWellFormed(st: Declared, decls: seq<NodeDecl>, i: nat)
    requires i <= |decls| && WellFormed(st) && DeclareFrom(st, decls, i).Ok?
    ensures WellFormed(DeclareFrom(st, decls, i).value)
    decreases |decls| - i
  {
    if i < |decls| {
      AddNodeWellFormed(st, decls[i]);
      DeclareFromWellFormed(AddNode(st, decls[i]), decls, i + 1);
    }
  }

  /** A rejected list is empty (`NoNodes`) or is rejected at its first faulty declaration. */
  lemma DeclareError(st: Declared, decls: seq<NodeDecl>)
    requires Declare(st, decls).Err?
    ensures Declare(st, decls).error.NoNodes? <==> |decls| == 0
    ensures |decls| > 0 ==> FaultExplained(st, decls, 0, Declare(st, decls).error)
  {
    if |decls| > 0 {
      DeclareFromError(st, decls, 0);
    }
  }

  // ------------------------------------------------------------------
  // Connecting the nodes
  // ------------------------------------------------------------------

  /** Record the edge `source -> target`: a child of the source, then a parent of the target. */
  function AddEdge(nodes: map<string, Node>, source: string, target: string): map<string, Node>
    requires source in nodes && target in nodes
  {
    var withChild := nodes[source := nodes[source].(children := nodes[source].children + [target])];
    withChild[target := withChild[target].(parents := withChild[target].parents + [source])]
  }

  /** What `ParseEdge` makes of each edge string, in order. */
  function ParsedEdges(edges: seq<string>): (r: seq<Option<(string, string)>>)
    ensures |r| == |edges| && forall i :: 0 <= i < |edges| ==> r[i] == ParseEdge(edges[i])
  {
    seq(|edges|, i requires 0 <= i < |edges| => ParseEdge(edges[i]))
  }

  /** Add the parsed edges `parsed[i..]` one by one, stopping at the first malformed one or one naming an unknown node. */
  function Connect(nodes: map<string, Node>, parsed: seq<Option<(string, string)>>, i: nat): Result<map<string, Node>, EdgeError>
    requires i <= |parsed|
    decreases |parsed| - i
  {
    if i == |parsed| then Ok(nodes)
    else match parsed[i]
      case None => Err(BadEdge(i))
      case Some(edge) =>
        if edge.0 !in nodes then Err(NoSource(i))
        else if edge.1 !in nodes then Err(NoTarget(i))
        else Connect(AddEdge(nodes, edge.0, edge.1), parsed, i + 1)
  }

  /** The (source, target) pairs among `parsed[i..]`. */
  function EdgePairs(parsed: seq<Option<(string, string)>>, i: nat): seq<(string, string)>
    requires i <= |parsed|
    decreases |parsed| - i
  {
    if i == |parsed| then []
    else match parsed[i]
      case None => EdgePairs(parsed, i + 1)
      case Some(edge) => [edge] + EdgePairs(parsed, i + 1)
  }

  /** The targets of the pairs whose source is `n`, in order (duplicates kept). */
  function TargetsOf(pairs: seq<(string, string)>, n: string): seq<string> {
    if |pairs| == 0 then []
    else (if pairs[0].0 == n then [pairs[0].1] else []) + TargetsOf(pairs[1..], n)
  }

  /** The sources of the pairs whose target is `n`, in order (duplicates kept). */
  function SourcesOf(pairs: seq<(string, string)>, n: string): seq<string> {
    if |pairs| == 0 then []
    else (if pairs[0].1 == n then [pairs[0].0] else []) + SourcesOf(pairs[1..], n)
  }

  /** Connecting never adds or removes a node. */
  lemma AddEdgeKeys(nodes: map<string, Node>, source: string, target: string)
    requires source in nodes && target in nodes
    ensures AddEdge(nodes, source, target).Keys == nodes.Keys
  {
  }

  /**
   * One edge appends the target to the children of the source and the
   * source to the parents of the target (both, for a self-loop) and
   * changes nothing else.
   */
  lemma AddEdgeAt(nodes: map<string, Node>, source: string, target: string, n: string)
    requires source in nodes && target in nodes && n in nodes
    ensures var m := AddEdge(nodes, source, target);
      n in m
      && m[n] == nodes[n].(children := nodes[n].children + (if source == n then [target] else []),
                           parents := nodes[n].parents + (if target == n then [source] else []))
  {
  }

  /** The edges are accepted exactly when each parses and names two existing nodes. */
  lemma {:induction false} ConnectOk(nodes: map<string, Node>, parsed: seq<Option<(string, string)>>, i: nat)
    requires i <= |parsed|
    ensures Connect(nodes, parsed, i).Ok? <==>
      forall j :: i <= j < |parsed| ==>
        parsed[j].Some? && parsed[j].value.0 in nodes && parsed[j].value.1 in nodes
    decreases |parsed| - i
  {
    if i < |parsed| && parsed[i].Some? {
      var edge := parsed[i].value;
      if edge.0 in nodes && edge.1 in nodes {
        AddEdgeKeys(nodes, edge.0, edge.1);
        ConnectOk(AddEdge(nodes, edge.0, edge.1), parsed, i + 1);
      }
    }
  }

  /** The index of the edge an error names. */
  function EdgeIndex(e: EdgeError): nat {
    match e
    case BadEdge(i) => i
    case NoSource(i) => i
    case NoTarget(i) => i
  }

  /**
   * A rejected edge list is rejected at its first faulty edge: the
   * ones before it are fine, and the error says whether the string is
   * malformed, its source is unknown, or (with a known source) its target is.
   */
  lemma {:induction false} ConnectError(nodes: map<string, Node>, parsed: seq<Option<(string, string)>>, i: nat)
    requires i <= |parsed| && Connect(nodes, parsed, i).Err?
    ensures var e := Connect(nodes, parsed, i).error; var x := EdgeIndex(e);
      i <= x < |parsed|
      && (forall j :: i <= j < x ==>
            parsed[j].Some? && parsed[j].value.0 in nodes && parsed[j].value.1 in nodes)
      && (e.BadEdge? <==> parsed[x].None?)
      && (e.NoSource? ==> parsed[x].value.0 !in nodes)
      && (e.NoTarget? ==> parsed[x].value.0 in nodes && parsed[x].value.1 !in nodes)
    decreases |parsed| - i
  {
    if parsed[i].Some? {
      var edge := parsed[i].value;
      if edge.0 in nodes && edge.1 in nodes {
        AddEdgeKeys(nodes, edge.0, edge.1);
        ConnectError(AddEdge(nodes, edge.0, edge.1), parsed, i + 1);
      }
    }
  }

  /** An accepted edge list starts with an edge between existing nodes and goes on from the connected network. */
  lemma ConnectStep(nodes: map<string, Node>, parsed: seq<Option<(string, string)>>, i: nat)
    requires i < |parsed| && Connect(nodes, parsed, i).Ok?
    ensures parsed[i].Some?
    ensures var edge := parsed[i].value;
      edge.0 in nodes && edge.1 in nodes
      && Connect(nodes, parsed, i) == Connect(AddEdge(nodes, edge.0, edge.1), parsed, i + 1)
      && EdgePairs(parsed, i) == [edge] + EdgePairs(parsed, i + 1)
  {
  }

  lemma PairsCons(edge: (string, string), rest: seq<(string, string)>, n: string)
    ensures TargetsOf([edge] + rest, n) == (if edge.0 == n then [edge.1] else []) + TargetsOf(rest, n)
    ensures SourcesOf([edge] + rest, n) == (if edge.1 == n then [edge.0] else []) + SourcesOf(rest, n)
  {
    assert ([edge] + rest)[1..] == rest;
  }

  /** Accepted edges add and remove no node. */
  lemma {:induction false} ConnectKeys(nodes: map<string, Node>, parsed: seq<Option<(string, string)>>, i: nat)
    requires i <= |parsed| && Connect(nodes, parsed, i).Ok?
    ensures Connect(nodes, parsed, i).value.Keys == nodes.Keys
    decreases |parsed| - i
  {
    if i < |parsed| {
      ConnectStep(nodes, parsed, i);
      var edge := parsed[i].value;
      AddEdgeKeys(nodes, edge.0, edge.1);
      ConnectKeys(AddEdge(nodes, edge.0, edge.1), parsed, i + 1);
    }
  }

  /** Node `n` after the edges `pairs`: the targets of its outgoing edges appended to its children, the sources of its incoming edges to its parents. */
  function Grown(node: Node, pairs: seq<(string, string)>, n: string): Node {
    node.(children := node.children + TargetsOf(pairs, n), parents := node.parents + SourcesOf(pairs, n))
  }

  lemma GrownCons(node: Node, edge: (string, string), rest: seq<(string, string)>, n: string)
    ensures Grown(Grown(node, [edge], n), rest, n) == Grown(node, [edge] + rest, n)
  {
    PairsCons(edge, [], n);
    PairsCons(edge, rest, n);
    var ts := if edge.0 == n then [edge.1] else [];
    var ss := if edge.1 == n then [edge.0] else [];
    assert [edge] + [] == [edge];
    assert ts + [] == ts && ss + [] == ss;
    assert (node.children + ts) + TargetsOf(rest, n) == node.children + (ts + TargetsOf(rest, n));
    assert (node.parents + ss) + SourcesOf(rest, n) == node.parents + (ss + SourcesOf(rest, n));
  }

  /**
   * After the accepted edges `parsed[i..]`, every node has gained, in edge
   * order, the targets of the edges leaving it as children and the sources
   * of the edges entering it as parents; its other fields are unchanged.
   */
  lemma {:induction false} ConnectResult(nodes: map<string, Node>, parsed: seq<Option<(string, string)>>, i: nat, n: string)
    requires i <= |parsed| && Connect(nodes, parsed, i).Ok? && n in nodes
    ensures n in Connect(nodes, parsed, i).value
    ensures Connect(nodes, parsed, i).value[n] == Grown(nodes[n], EdgePairs(parsed, i), n)
    decreases |parsed| - i
  {
    if i < |parsed| {
      ConnectStep(nodes, parsed, i);
      var edge := parsed[i].value;
      var next := AddEdge(nodes, edge.0, edge.1);
      AddEdgeAt(nodes, edge.0, edge.1, n);
      PairsCons(edge, [], n);
      assert [edge] + [] == [edge];
      assert next[n] == Grown(nodes[n], [edge], n);
      ConnectResult(next, parsed, i + 1, n);
      GrownCons(nodes[n], edge, EdgePairs(parsed, i + 1), n);
    }
  }

  /** An edge between existing nodes is added and the edges after it follow. */
  lemma ConnectNext(nodes: map<string, Node>, parsed: seq<Option<(string, string)>>, i: nat)
    requires i < |parsed| && parsed[i].Some? && parsed[i].value.0 in nodes && parsed[i].value.1 in nodes
    ensures Connect(nodes, parsed, i) == Connect(AddEdge(nodes, parsed[i].value.0, parsed[i].value.1), parsed, i + 1)
  {
  }

  /** One edge between existing nodes keeps the network well formed. */
  lemma AddEdgeWellFormed(st: Declared, source: string, target: string)
    requires WellFormed(st) && source in st.nodes && target in st.nodes
    ensures WellFormed(st.(nodes := AddEdge(st.nodes, source, target)))
  {
    var m := AddEdge(st.nodes, source, target);
    forall n | n in m
      ensures m[n].name == st.nodes[n].name && m[n].csvName == st.nodes[n].csvName
      ensures forall x :: x in m[n].parents ==> x in m
      ensures forall x :: x in m[n].children ==> x in m
    {
      AddEdgeAt(st.nodes, source, target, n);
    }
  }

  // ------------------------------------------------------------------
  // Conditions of a node
  // ------------------------------------------------------------------

  /** The (column, value) pairs of one parent, in the order of its values. */
  function ParentPairs(parent: Node): seq<(string, string)> {
    seq(|parent.values|, k requires 0 <= k < |parent.values| => (parent.csvName, parent.values[k]))
  }

  /** The pair lists of the parents of a node, one per parent in the order of `parents`. */
  function ConditionLists(nodes: map<string, Node>, parents: seq<string>): (r: seq<seq<(string, string)>>)
    requires forall p :: p in parents ==> p in nodes
    ensures |r| == |parents|
    ensures forall i :: 0 <= i < |parents| ==> |r[i]| == |nodes[parents[i]].values|
  {
    seq(|parents|, i requires 0 <= i < |parents| => ParentPairs(nodes[parents[i]]))
  }

  /** The product of the parents' domain sizes, one factor per parent (1 for no parents). */
  function DomainProduct(nodes: map<string, Node>, parents: seq<string>): nat
    requires forall p :: p in parents ==> p in nodes
  {
    if |parents| == 0 then 1 else |nodes[parents[0]].values| * DomainProduct(nodes, parents[1..])
  }

  /** The number of conditions of a node is the product of its parents' domain sizes. */
  lemma {:induction false} ConditionCount(nodes: map<string, Node>, parents: seq<string>)
    requires forall p :: p in parents ==> p in nodes
    ensures |Conditions.Product(ConditionLists(nodes, parents))| == DomainProduct(nodes, parents)
    decreases |parents|
  {
    var lists := ConditionLists(nodes, parents);
    Conditions.ProductLength(lists);
    ComplexityIsProduct(nodes, parents);
  }

  lemma {:induction false} ComplexityIsProduct(nodes: map<string, Node>, parents: seq<string>)
    requires forall p :: p in parents ==> p in nodes
    ensures Conditions.Complexity(ConditionLists(nodes, parents)) == DomainProduct(nodes, parents)
    decreases |parents|
  {
    if |parents| > 0 {
      ComplexityIsProduct(nodes, parents[1..]);
      assert ConditionLists(nodes, parents)[1..] == ConditionLists(nodes, parents[1..]);
    }
  }

  // ------------------------------------------------------------------
  // The network object
  // ------------------------------------------------------------------

  /** The global `network` dictionary and the CSV-name table, filled from the config file. */
  class Network {
    var order: seq<string>
    var nodes: map<string, Node>
    var csvNames: map<string, string>

    /** The three fields as one value. */
    function State(): Declared
      reads this
    {
      Declared(order, nodes, csvNames)
    }

    ghost predicate Valid()
      reads this
    {
      WellFormed(State())
    }

    /** An empty network. */
    constructor ()
      ensures Valid() && order == [] && nodes == map[] && csvNames == map[]
    {
      order := [];
      nodes := map[];
      csvNames := map[];
    }

    /**
     * The checks of one declaration in the order the program makes them:
     * name format, name taken, CSV name taken, the values, the position.
     * This is `DeclFault` run against the network's own tables: it reports
     * the same fault, and on success the node built from the declaration.
     */
    method CheckDecl(d: NodeDecl, i: nat) returns (err: Option<NodeError>, node: Node)
      ensures err == DeclFault(d, i, nodes.Keys, csvNames.Keys)
      ensures err.None? ==> node == NewNode(d)
    {
      node := Node(d.name, d.name, [], [], [], Position(1, 1));
      if !ValidName(d.name) {
        return Some(BadName(i)), node;
      }
      if d.name in nodes {
        return Some(NameExists(i)), node;
      }
      var csvName := d.name;
      if d.csvName.Some? {
        csvName := d.csvName.value;
      }
      if csvName in csvNames {
        return Some(CsvNameExists(i)), node;
      }
      var fault, values := CheckValues(d.values);
      if fault.Some? {
        return Some(BadValues(i, fault.value)), node;
      }
      var position := ParsePosition(d.position);
      if position.None? {
        return Some(BadPosition(i)), node;
      }
      return None, Node(d.name, csvName, values, [], [], position.value);
    }

    /**
     * `parseConfigJsonFile_nodes`: check each declaration in turn and add
     * its node; the first failing check ends the parse with its error.
     */
    method ParseNodes(decls: seq<NodeDecl>) returns (err: Option<NodeError>)
      requires Valid()
      modifies this
      ensures err.None? ==> Declare(old(State()), decls) == Ok(State()) && Valid()
      ensures err.Some? ==> Declare(old(State()), decls) == Err(err.value)
    {
      if |decls| == 0 {
        return Some(NoNodes);
      }
      ghost var st0 := State();
      var i := 0;
      while i < |decls|
        invariant 0 <= i <= |decls|
        invariant DeclareFrom(st0, decls, 0) == DeclareFrom(State(), decls, i)
        invariant Valid()
      {
        var d := decls[i];
        ghost var st := State();
        var fault, node := CheckDecl(d, i);
        if fault.Some? {
          return fault;
        }
        AddNodeWellFormed(st, d);
        csvNames := csvNames[node.csvName := d.name];
        nodes := nodes[d.name := node];
        order := order + [d.name];
        assert State() == AddNode(st, d);
        i := i + 1;
      }
      return None;
    }

    /**
     * `parseConfigJsonFile_edges`: parse each edge string and connect its
     * two nodes; the first malformed string or unknown node ends the parse.
     */
    method ParseEdges(edges: seq<string>) returns (err: Option<EdgeError>)
      requires Valid()
      modifies this
      ensures order == old(order) && csvNames == old(csvNames)
      ensures err.None? ==> Connect(old(nodes), ParsedEdges(edges), 0) == Ok(nodes) && Valid()
      ensures err.Some? ==> Connect(old(nodes), ParsedEdges(edges), 0) == Err(err.value)
    {
      ghost var parsed := ParsedEdges(edges);
      ghost var result := Connect(nodes, parsed, 0);
      var i := 0;
      while i < |edges|
        invariant 0 <= i <= |edges|
        invariant order == old(order) && csvNames == old(csvNames)
        invariant result == Connect(nodes, parsed, i)
        invariant Valid()
      {
        var edge := ParseEdge(edges[i]);
        assert edge == parsed[i];
        if edge.None? {
          return Some(BadEdge(i));
        }
        var source, target := edge.value.0, edge.value.1;
        if source !in nodes {
          return Some(NoSource(i));
        }
        if target !in nodes {
          return Some(NoTarget(i));
        }
        ghost var st := State();
        AddEdgeWellFormed(st, source, target);
        ConnectNext(nodes, parsed, i);
        nodes := AddEdge(nodes, source, target);
        assert State() == st.(nodes := nodes);
        i := i + 1;
      }
      return None;
    }

    /**
     * `estimateComplexity`: for every node, the number of its conditions,
     * the product of its parents' domain sizes.
     */
    method EstimateComplexity() returns (complexities: map<string, nat>)
      requires Valid()
      ensures complexities.Keys == nodes.Keys
      ensures forall n :: n in nodes ==>
        complexities[n] == |Conditions.Product(ConditionLists(nodes, nodes[n].parents))|
    {
      complexities := map[];
      var i := 0;
      while i < |order|
        invariant 0 <= i <= |order|
        invariant complexities.Keys == set k | 0 <= k < i :: order[k]
        invariant forall n :: n in complexities ==>
          n in nodes && complexities[n] == |Conditions.Product(ConditionLists(nodes, nodes[n].parents))|
      {
        var n := order[i];
        ConditionCount(nodes, nodes[n].parents);
        complexities := complexities[n := DomainProduct(nodes, nodes[n].parents)];
        i := i + 1;
      }
    }
  }
}
