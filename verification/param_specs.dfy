/** `ParamSpecs`: the ordered chain of parameter specifications of one query,
    and the SQL statement that samples values for one of them.

    The chain is a list of nodes; every node after the first is joined to
    its predecessor on one or more column pairs.  The statement for a target
    spec walks the chain from the front, giving the nodes the aliases `a`,
    `b`, `c`, ... and stopping at the first node whose spec equals the target
    (equality as `ParamSpec.equals` defines it). */
module Chains {
  import opened Base
  import opened Conditions
  import opened Specs
  import JoinPairs
  import Preconditions
  import Text
  import Seqs

  datatype Node = Node(on: seq<JoinPairs.JoinPair>, item: ParamSpec)

  datatype ParamSpecs = ParamSpecs(schema: Option<string>, nodes: seq<Node>)

  /** The shape every chain has: a first node without join pairs, then nodes
      with at least one. */
  predicate Valid(c: ParamSpecs)
  {
    && |c.nodes| > 0
    && c.nodes[0].on == []
    && forall i :: 1 <= i < |c.nodes| ==> |c.nodes[i].on| > 0
  }

  /** `create(firstSpec)`: a null spec raises NullPointerException. */
  function Create(first: Option<ParamSpec>): (r: Result<ParamSpecs>)
    ensures r.Err? <==> first.None?
    ensures r.Err? ==> r.error == NullPointer
    ensures r.Ok? ==> Valid(r.value) && r.value.schema.None? && GetParamSpecsOf(r.value) == [first.value]
  {
    var spec :- Preconditions.CheckNotNull(first);
    Ok(ParamSpecs(None, [Node([], spec)]))
  }

  /** `join(spec, on...)`: a null spec raises NullPointerException and an empty
      list of join pairs IllegalArgumentException; otherwise the spec becomes
      the new last node. */
  function Join(c: ParamSpecs, spec: Option<ParamSpec>, on: seq<JoinPairs.JoinPair>): (r: Result<ParamSpecs>)
    ensures spec.None? ==> r == Err(NullPointer)
    ensures spec.Some? && |on| == 0 ==> r == Err(IllegalArgument)
    ensures r.Ok? <==> spec.Some? && |on| > 0
    ensures r.Ok? ==> && r.value.schema == c.schema
                      && GetParamSpecsOf(r.value) == GetParamSpecsOf(c) + [spec.value]
                      && r.value.nodes[..|c.nodes|] == c.nodes
                      && r.value.nodes[|c.nodes|].on == on
    ensures r.Ok? && Valid(c) ==> Valid(r.value)
  {
    var item :- Preconditions.CheckNotNull(spec);
    :- Preconditions.CheckArgument(|on| > 0);
    var nodes := c.nodes + [Node(on, item)];
    assert GetParamSpecsOf(c.(nodes := nodes)) == GetParamSpecsOf(c) + [item];
    Ok(c.(nodes := nodes))
  }

  /** `setSchema`: "" is stored as absent. */
  function SetSchema(c: ParamSpecs, schema: Option<string>): (r: ParamSpecs)
    ensures r.schema.None? <==> Preconditions.IsNullOrEmpty(schema)
    ensures r.schema.Some? ==> r.schema == schema
    ensures r.nodes == c.nodes
  {
    c.(schema := Preconditions.EmptyToNull(schema))
  }

  /** The specs of the chain, in order. */
  function GetParamSpecsOf(c: ParamSpecs): seq<ParamSpec>
  {
    seq(|c.nodes|, i requires 0 <= i < |c.nodes| => c.nodes[i].item)
  }

  /** `getParamSpecs()`: walks the chain from the first node, collecting the
      specs. */
  method GetParamSpecs(c: ParamSpecs) returns (specs: seq<ParamSpec>)
    ensures |specs| == |c.nodes|
    ensures forall i :: 0 <= i < |c.nodes| ==> specs[i] == c.nodes[i].item
  {
    specs := [];
    var i := 0;
    while i < |c.nodes|
      invariant 0 <= i <= |c.nodes|
      invariant |specs| == i
      invariant forall k :: 0 <= k < i ==> specs[k] == c.nodes[k].item
    {
      specs := specs + [c.nodes[i].item];
      i := i + 1;
    }
  }

  /** The chain grows by one spec per successful join. */
  lemma {:induction false} JoinsGrowTheChain(first: ParamSpec, joins: seq<(ParamSpec, seq<JoinPairs.JoinPair>)>)
    requires forall k :: 0 <= k < |joins| ==> |joins[k].1| > 0
    ensures BuildChain(first, joins).Ok?
    ensures Valid(BuildChain(first, joins).value)
    ensures |GetParamSpecsOf(BuildChain(first, joins).value)| == 1 + |joins|
    ensures GetParamSpecsOf(BuildChain(first, joins).value)[0] == first
    ensures forall k :: 0 <= k < |joins| ==> GetParamSpecsOf(BuildChain(first, joins).value)[k + 1] == joins[k].0
    decreases |joins|
  {
    if |joins| > 0 {
      var prefix := joins[..|joins| - 1];
      JoinsGrowTheChain(first, prefix);
      assert forall k :: 0 <= k < |prefix| ==> prefix[k] == joins[k];
    }
  }

  /** `create(first)` followed by one `join` per entry of `joins`. */
  function BuildChain(first: ParamSpec, joins: seq<(ParamSpec, seq<JoinPairs.JoinPair>)>): Result<ParamSpecs>
    decreases |joins|
  {
    if |joins| == 0 then Create(Some(first))
    else
      var c :- BuildChain(first, joins[..|joins| - 1]);
      Join(c, Some(joins[|joins| - 1].0), joins[|joins| - 1].1)
  }

  // ---------------------------------------------------------------------
  // Statement generation
  // ---------------------------------------------------------------------

  /** Aliases are consecutive characters from `a`; a Dafny `char` cannot hold
      a UTF-16 surrogate, so the model stops before the surrogate block. */
  const AliasCount: nat := 0xD800 - 97

  /** The alias of node `i`.  Only indices below `AliasCount` have a
      faithful alias; `GetSqlStatement` is stated for chains that short, and
      beyond them a placeholder character stands in. */
  function Alias(i: nat): (a: string)
    ensures |a| == 1
    ensures i < AliasCount ==> a[0] as int == 97 + i
  {
    if i < AliasCount then [(97 + i) as char] else "?"
  }

  /** The schema a spec's table lives in: its own, or else the chain's. */
  function SchemaOf(c: ParamSpecs, spec: ParamSpec): Option<string>
  {
    if spec.schema.Some? then spec.schema else c.schema
  }

  /** `constructTableName(spec)`: the schema, followed by a dot, unless it is
      blank, then the table; all of it lower-cased.  So the name is the
      lower-cased table, behind the lower-cased schema and a dot exactly when
      the schema is not blank. */
  function TableName(c: ParamSpecs, spec: ParamSpec): (r: string)
    ensures |r| >= |spec.table|
    ensures Preconditions.IsBlank(SchemaOf(c, spec)) ==> r == Text.ToLower(spec.table)
    ensures !Preconditions.IsBlank(SchemaOf(c, spec)) ==>
              r == Text.ToLower(SchemaOf(c, spec).value) + "." + Text.ToLower(spec.table)
  {
    var schema := SchemaOf(c, spec);
    if !Preconditions.IsBlank(schema) then
      Text.ToLowerConcat(schema.value + ".", spec.table);
      Text.ToLowerConcat(schema.value, ".");
      assert Text.ToLower(".") == ".";
      Text.ToLower(schema.value + "." + spec.table)
    else Text.ToLower(spec.table)
  }

  /** The index of the first node whose spec equals `s`, or the chain length
      when there is none. */
  function Target(nodes: seq<Node>, s: ParamSpec): (t: nat)
    ensures t <= |nodes|
    ensures t < |nodes| ==> Specs.Equal(s, nodes[t].item)
    ensures forall i :: 0 <= i < t ==> !Specs.Equal(s, nodes[i].item)
  {
    TargetFrom(nodes, s, 0)
  }

  /** The first index from `i` on whose spec equals `s`. */
  function TargetFrom(nodes: seq<Node>, s: ParamSpec, i: nat): (t: nat)
    requires i <= |nodes|
    requires forall j :: 0 <= j < i ==> !Specs.Equal(s, nodes[j].item)
    ensures i <= t <= |nodes|
    ensures t < |nodes| ==> Specs.Equal(s, nodes[t].item)
    ensures forall j :: 0 <= j < t ==> !Specs.Equal(s, nodes[j].item)
    decreases |nodes| - i
  {
    if i == |nodes| || Specs.Equal(s, nodes[i].item) then i
    else TargetFrom(nodes, s, i + 1)
  }

  /** How many nodes the walk visits: up to and including the target. */
  function Visited(c: ParamSpecs, s: ParamSpec): (k: nat)
    ensures k <= |c.nodes|
  {
    var t := Target(c.nodes, s);
    if t < |c.nodes| then t + 1 else |c.nodes|
  }

  /** One clause of the ON list: previous alias and first column, equals,
      this alias and second column. */
  function OnTerm(i: nat, p: JoinPairs.JoinPair): string
    requires 1 <= i
  {
    Alias(i - 1) + "." + p.firstTableColumn + "=" + Alias(i) + "." + p.secondTableColumn
  }

  function OnTerms(i: nat, on: seq<JoinPairs.JoinPair>): (r: seq<string>)
    requires 1 <= i
    ensures |r| == |on|
    ensures forall j :: 0 <= j < |on| ==> r[j] == OnTerm(i, on[j])
  {
    seq(|on|, j requires 0 <= j < |on| => OnTerm(i, on[j]))
  }

  /** The FROM clause after visiting the first `k` nodes: the first table
      with its alias, then for each later node an INNER JOIN on its pairs. */
  function FromClause(c: ParamSpecs, k: nat): (r: string)
    requires k <= |c.nodes|
    ensures k > 0 <==> |r| > 0
    decreases k
  {
    if k == 0 then ""
    else if k == 1 then TableName(c, c.nodes[0].item) + " " + Alias(0)
    else
      FromClause(c, k - 1) + " INNER JOIN " + TableName(c, c.nodes[k - 1].item) + " " + Alias(k - 1) + " ON "
        + Text.Join(" AND ", OnTerms(k - 1, c.nodes[k - 1].on))
  }

  /** A fragment of the WHERE clause: a static condition of node `node`, or
      the `= ?` placeholder on the column of an earlier node. */
  datatype WherePart = Static(node: nat, cond: Condition) | Placeholder(node: nat, column: string)

  /** The static conditions of node `i`, in their order. */
  function StaticParts(i: nat, where: seq<Condition>): (r: seq<WherePart>)
    ensures |r| == |where|
    ensures forall j :: 0 <= j < |where| ==> r[j] == Static(i, where[j])
  {
    seq(|where|, j requires 0 <= j < |where| => Static(i, where[j]))
  }

  /** What node `i` adds to the WHERE fragments: its static conditions, then
      a placeholder unless it is the target. */
  function NodeParts(c: ParamSpecs, s: ParamSpec, i: nat): seq<WherePart>
    requires i < |c.nodes|
  {
    var statics := StaticParts(i, c.nodes[i].item.where);
    if Specs.Equal(s, c.nodes[i].item) then statics
    else statics + [Placeholder(i, Text.ToLower(c.nodes[i].item.column))]
  }

  /** Node `i` adds one fragment per static condition and one more unless it
      is the target, all of them under its own index. */
  lemma NodePartsShape(c: ParamSpecs, s: ParamSpec, i: nat)
    requires i < |c.nodes|
    ensures |NodeParts(c, s, i)| == |c.nodes[i].item.where| + (if Specs.Equal(s, c.nodes[i].item) then 0 else 1)
    ensures forall j :: 0 <= j < |NodeParts(c, s, i)| ==> NodeParts(c, s, i)[j].node == i
  {
  }

  /** The WHERE fragments after visiting the first `k` nodes. */
  function Parts(c: ParamSpecs, s: ParamSpec, k: nat): (r: seq<WherePart>)
    requires k <= |c.nodes|
    decreases k
  {
    if k == 0 then [] else Parts(c, s, k - 1) + NodeParts(c, s, k - 1)
  }

  function PartText(p: WherePart): string
  {
    match p
    case Static(i, cond) => Alias(i) + "." + Conditions.ToString(cond)
    case Placeholder(i, column) => Alias(i) + "." + column + " = ?"
  }

  function PartTexts(parts: seq<WherePart>): (r: seq<string>)
    ensures |r| == |parts|
  {
    Seqs.Map(PartText, parts)
  }

  /** The select list: the target's lower-cased column under its alias, or
      nothing when no node equals the target. */
  function Columns(c: ParamSpecs, s: ParamSpec): (r: seq<string>)
    ensures |r| <= 1
  {
    var t := Target(c.nodes, s);
    if t < |c.nodes| then [Alias(t) + "." + Text.ToLower(c.nodes[t].item.column)] else []
  }

  /** The joined WHERE fragments of the statement for `s`. */
  function WhereText(c: ParamSpecs, s: ParamSpec): string
  {
    Text.Join(" AND ", PartTexts(Parts(c, s, Visited(c, s))))
  }

  /** The statement as a whole: SELECT, FROM, and WHERE when there is at
      least one fragment. */
  function Statement(c: ParamSpecs, s: ParamSpec): string
  {
    var select := "SELECT " + Text.Join(", ", Columns(c, s)) + " FROM " + FromClause(c, Visited(c, s));
    if |WhereText(c, s)| > 0 then select + " WHERE " + WhereText(c, s) else select
  }

  /** `getSqlStatement(spec)`: a null spec raises NullPointerException;
      otherwise the walk's three parts are assembled, with ` WHERE ` only
      when the joined fragments are not empty. */
  method GetSqlStatement(c: ParamSpecs, spec: Option<ParamSpec>) returns (r: Result<string>)
    requires |c.nodes| <= AliasCount
    ensures spec.None? ==> r == Err(NullPointer)
    ensures spec.Some? ==> r == Ok(Statement(c, spec.value))
  {
    if spec.None? {
      return Err(NullPointer);
    }
    var columns, tables, where := Walk(c, spec.value);
    var sql := "SELECT " + Text.Join(", ", columns) + " FROM " + tables;
    var whereText := Text.Join(" AND ", where);
    if |whereText| > 0 {
      sql := sql + " WHERE " + whereText;
    }
    return Ok(sql);
  }

  /** The loop of `getSqlStatement`: visit nodes from the first, adding each
      one's table and static conditions, until the node equal to `s`, which
      contributes the select list; every node before it contributes a
      placeholder instead. */
  method Walk(c: ParamSpecs, s: ParamSpec) returns (columns: seq<string>, tables: string, where: seq<string>)
    ensures columns == Columns(c, s)
    ensures tables == FromClause(c, Visited(c, s))
    ensures where == PartTexts(Parts(c, s, Visited(c, s)))
  {
    tables := "";
    where := [];
    var i := 0;
    var column: Option<string> := None;
    while i < |c.nodes| && column.None?
      invariant 0 <= i <= |c.nodes|
      invariant column.None? ==> i <= Target(c.nodes, s) && tables == FromClause(c, i)
                                 && where == PartTexts(Parts(c, s, i))
      invariant column.Some? ==> && [column.value] == Columns(c, s)
                                 && tables == FromClause(c, Visited(c, s))
                                 && where == PartTexts(Parts(c, s, Visited(c, s)))
    {
      tables, where, column := VisitNode(c, s, i, tables, where);
      i := i + 1;
    }
    if column.Some? {
      columns := [column.value];
    } else {
      columns := [];
      TargetAbsent(c, s, i);
    }
  }

  /** One turn of the loop: node `i` adds its table, its static conditions,
      and then either the select column (when it is the target, which ends
      the walk) or its placeholder. */
  method VisitNode(c: ParamSpecs, s: ParamSpec, i: nat, tables: string, where: seq<string>)
    returns (tables': string, where': seq<string>, column: Option<string>)
    requires i < |c.nodes| && i <= Target(c.nodes, s)
    requires tables == FromClause(c, i)
    requires where == PartTexts(Parts(c, s, i))
    ensures column.Some? <==> Target(c.nodes, s) == i
    ensures column.Some? ==> && [column.value] == Columns(c, s)
                             && tables' == FromClause(c, Visited(c, s))
                             && where' == PartTexts(Parts(c, s, Visited(c, s)))
    ensures column.None? ==> && i + 1 <= Target(c.nodes, s)
                             && tables' == FromClause(c, i + 1)
                             && where' == PartTexts(Parts(c, s, i + 1))
  {
    var node := c.nodes[i];
    var aliasStr := Alias(i) + ".";
    tables' := AppendTable(c, i, tables);
    where' := AppendStatics(where, i, node.item.where);
    NodePartsText(c, s, i);
    if Specs.Equal(s, node.item) {
      column := Some(aliasStr + Text.ToLower(node.item.column));
      TargetFound(c, s, i);
    } else {
      where' := where' + [aliasStr + Text.ToLower(node.item.column) + " = ?"];
      column := None;
      TargetNotYet(c, s, i);
    }
  }

  /** The FROM text of node `i`: the bare table for the first node, an
      INNER JOIN on the join pairs for the others. */
  method AppendTable(c: ParamSpecs, i: nat, tables: string) returns (tables': string)
    requires i < |c.nodes|
    requires tables == FromClause(c, i)
    ensures tables' == FromClause(c, i + 1)
  {
    var node := c.nodes[i];
    if |tables| == 0 {
      tables' := tables + TableName(c, node.item) + " " + Alias(i);
    } else {
      tables' := tables + " INNER JOIN " + TableName(c, node.item) + " " + Alias(i) + " ON ";
      tables' := AppendOnTerms(tables', i, node.on);
    }
  }

  lemma TargetFound(c: ParamSpecs, s: ParamSpec, i: nat)
    requires i <= Target(c.nodes, s) && i < |c.nodes| && Specs.Equal(s, c.nodes[i].item)
    ensures Target(c.nodes, s) == i && Visited(c, s) == i + 1
    ensures Columns(c, s) == [Alias(i) + "." + Text.ToLower(c.nodes[i].item.column)]
    ensures FromClause(c, Visited(c, s)) == FromClause(c, i + 1)
    ensures PartTexts(Parts(c, s, Visited(c, s))) == PartTexts(Parts(c, s, i + 1))
  {
  }

  lemma TargetAbsent(c: ParamSpecs, s: ParamSpec, i: nat)
    requires i == |c.nodes| && i <= Target(c.nodes, s)
    ensures Visited(c, s) == i && Columns(c, s) == []
    ensures FromClause(c, Visited(c, s)) == FromClause(c, i)
    ensures PartTexts(Parts(c, s, Visited(c, s))) == PartTexts(Parts(c, s, i))
  {
  }

  lemma TargetNotYet(c: ParamSpecs, s: ParamSpec, i: nat)
    requires i <= Target(c.nodes, s) && i < |c.nodes| && !Specs.Equal(s, c.nodes[i].item)
    ensures i + 1 <= Target(c.nodes, s)
  {
  }

  /** The ON list of node `i`, joined with ` AND ` term by term. */
  method AppendOnTerms(head: string, i: nat, on: seq<JoinPairs.JoinPair>) returns (tables: string)
    requires 1 <= i
    ensures tables == head + Text.Join(" AND ", OnTerms(i, on))
  {
    tables := head;
    var terms := OnTerms(i, on);
    var j := 0;
    while j < |on|
      invariant 0 <= j <= |on|
      invariant tables == head + Text.Join(" AND ", terms[..j])
    {
      ghost var joined := Text.Join(" AND ", terms[..j]);
      Text.JoinSnoc(" AND ", terms[..j], terms[j]);
      assert terms[..j + 1] == terms[..j] + [terms[j]];
      if j > 0 {
        tables := tables + " AND ";
        Seqs.ConcatAssoc(head, joined, " AND ");
        tables := tables + OnTerm(i, on[j]);
        Seqs.ConcatAssoc(head, joined + " AND ", terms[j]);
      } else {
        tables := tables + OnTerm(i, on[j]);
      }
      j := j + 1;
    }
    assert terms[..|on|] == terms;
  }

  /** `getWhere().forEach(c -> where.add(alias + c))` for node `i`. */
  method AppendStatics(where: seq<string>, i: nat, conds: seq<Condition>) returns (r: seq<string>)
    ensures r == where + PartTexts(StaticParts(i, conds))
  {
    r := where;
    var j := 0;
    while j < |conds|
      invariant 0 <= j <= |conds|
      invariant r == where + PartTexts(StaticParts(i, conds[..j]))
    {
      assert StaticParts(i, conds[..j + 1]) == StaticParts(i, conds[..j]) + [Static(i, conds[j])];
      assert PartTexts(StaticParts(i, conds[..j + 1]))
          == PartTexts(StaticParts(i, conds[..j])) + [PartText(Static(i, conds[j]))];
      r := r + [Alias(i) + "." + Conditions.ToString(conds[j])];
      j := j + 1;
    }
    assert conds[..|conds|] == conds;
  }

  /** Visiting node `i` appends the texts of its fragments. */
  lemma NodePartsText(c: ParamSpecs, s: ParamSpec, i: nat)
    requires i < |c.nodes|
    ensures PartTexts(Parts(c, s, i + 1))
         == PartTexts(Parts(c, s, i)) + PartTexts(StaticParts(i, c.nodes[i].item.where))
            + (if Specs.Equal(s, c.nodes[i].item) then []
               else [Alias(i) + "." + Text.ToLower(c.nodes[i].item.column) + " = ?"])
  {
    var statics := StaticParts(i, c.nodes[i].item.where);
    var node := NodeParts(c, s, i);
    assert Parts(c, s, i + 1) == Parts(c, s, i) + node;
    Seqs.MapConcat(PartText, Parts(c, s, i), node);
    if !Specs.Equal(s, c.nodes[i].item) {
      var ph := Placeholder(i, Text.ToLower(c.nodes[i].item.column));
      assert node == statics + [ph];
      Seqs.MapConcat(PartText, statics, [ph]);
    }
  }

  // ---------------------------------------------------------------------
  // Properties of the statement
  // ---------------------------------------------------------------------

  /** The placeholder fragments of a fragment list, in order. */
  function Placeholders(parts: seq<WherePart>): (r: seq<WherePart>)
    decreases |parts|
  {
    if |parts| == 0 then []
    else Placeholders(parts[..|parts| - 1])
         + (if parts[|parts| - 1].Placeholder? then [parts[|parts| - 1]] else [])
  }

  lemma {:induction false} PlaceholdersConcat(a: seq<WherePart>, b: seq<WherePart>)
    ensures Placeholders(a + b) == Placeholders(a) + Placeholders(b)
    decreases |b|
  {
    if |b| == 0 {
      assert a + b == a;
    } else {
      var b' := b[..|b| - 1];
      assert (a + b)[..|a + b| - 1] == a + b';
      PlaceholdersConcat(a, b');
    }
  }

  lemma {:induction false} StaticsHaveNoPlaceholder(i: nat, where: seq<Condition>)
    ensures Placeholders(StaticParts(i, where)) == []
    decreases |where|
  {
    if |where| > 0 {
      var w' := where[..|where| - 1];
      assert StaticParts(i, where)[..|where| - 1] == StaticParts(i, w');
      StaticsHaveNoPlaceholder(i, w');
    }
  }

  /** The placeholder the walk adds for a node that is not the target. */
  function PlaceholderOf(c: ParamSpecs, i: nat): WherePart
    requires i < |c.nodes|
  {
    Placeholder(i, Text.ToLower(c.nodes[i].item.column))
  }

  /** The placeholders of the first `k` nodes, in chain order. */
  function PlaceholdersOf(c: ParamSpecs, k: nat): (r: seq<WherePart>)
    requires k <= |c.nodes|
    ensures |r| == k
    decreases k
  {
    if k == 0 then [] else PlaceholdersOf(c, k - 1) + [PlaceholderOf(c, k - 1)]
  }

  /** Before the target, the walk has added one placeholder per node, in
      chain order. */
  lemma {:induction false} PlaceholdersBeforeTarget(c: ParamSpecs, s: ParamSpec, k: nat)
    requires k <= Target(c.nodes, s) && k <= |c.nodes|
    ensures Placeholders(Parts(c, s, k)) == PlaceholdersOf(c, k)
    decreases k
  {
    if k > 0 {
      PlaceholdersBeforeTarget(c, s, k - 1);
      var statics := StaticParts(k - 1, c.nodes[k - 1].item.where);
      assert NodeParts(c, s, k - 1) == statics + [PlaceholderOf(c, k - 1)];
      PlaceholdersConcat(Parts(c, s, k - 1), NodeParts(c, s, k - 1));
      PlaceholdersConcat(statics, [PlaceholderOf(c, k - 1)]);
      StaticsHaveNoPlaceholder(k - 1, c.nodes[k - 1].item.where);
      assert Placeholders([PlaceholderOf(c, k - 1)]) == [PlaceholderOf(c, k - 1)];
    }
  }

  /** There is exactly one `= ?` placeholder per node strictly before the
      target, in chain order, each on that node's lower-cased column; when no
      node equals the spec, every node contributes one. */
  lemma PlaceholdersAreEarlierNodes(c: ParamSpecs, s: ParamSpec)
    ensures var t := Target(c.nodes, s);
            Placeholders(Parts(c, s, Visited(c, s))) == PlaceholdersOf(c, t)
  {
    var t := Target(c.nodes, s);
    if t < |c.nodes| {
      TargetAddsNoPlaceholder(c, s, t);
    } else {
      PlaceholdersBeforeTarget(c, s, t);
    }
  }

  /** So the number of `= ?` placeholders is the index of the target, or
      the length of the chain when no node equals the spec. */
  lemma PlaceholderCountIsTarget(c: ParamSpecs, s: ParamSpec)
    ensures |Placeholders(Parts(c, s, Visited(c, s)))| == Target(c.nodes, s)
  {
    PlaceholdersAreEarlierNodes(c, s);
    assert |PlaceholdersOf(c, Target(c.nodes, s))| == Target(c.nodes, s);
  }

  /** The target contributes its static conditions but no placeholder. */
  lemma TargetAddsNoPlaceholder(c: ParamSpecs, s: ParamSpec, t: nat)
    requires t == Target(c.nodes, s) && t < |c.nodes|
    ensures Placeholders(Parts(c, s, t + 1)) == PlaceholdersOf(c, t)
  {
    PlaceholdersBeforeTarget(c, s, t);
    var statics := StaticParts(t, c.nodes[t].item.where);
    assert Parts(c, s, t + 1) == Parts(c, s, t) + statics;
    PlaceholdersConcat(Parts(c, s, t), statics);
    StaticsHaveNoPlaceholder(t, c.nodes[t].item.where);
  }

  /** Every static condition of every visited node is among the fragments,
      under that node's index. */
  lemma StaticConditionsOfVisitedNodes(c: ParamSpecs, s: ParamSpec, k: nat)
    requires k <= |c.nodes|
    ensures forall i, j :: 0 <= i < k && 0 <= j < |c.nodes[i].item.where| ==>
              Static(i, c.nodes[i].item.where[j]) in Parts(c, s, k)
  {
    forall i, j | 0 <= i < k && 0 <= j < |c.nodes[i].item.where|
      ensures Static(i, c.nodes[i].item.where[j]) in Parts(c, s, k)
    {
      StaticConditionInParts(c, s, k, i, j);
    }
  }

  lemma {:induction false} StaticConditionInParts(c: ParamSpecs, s: ParamSpec, k: nat, i: nat, j: nat)
    requires i < k <= |c.nodes| && j < |c.nodes[i].item.where|
    ensures Static(i, c.nodes[i].item.where[j]) in Parts(c, s, k)
    decreases k
  {
    var x := Static(i, c.nodes[i].item.where[j]);
    PartsStep(c, s, k);
    if i < k - 1 {
      StaticConditionInParts(c, s, k - 1, i, j);
      InConcat(x, Parts(c, s, k - 1), NodeParts(c, s, k - 1));
    } else {
      StaticInNodeParts(c, s, i, j);
      InConcat(x, Parts(c, s, k - 1), NodeParts(c, s, k - 1));
    }
  }

  lemma StaticInNodeParts(c: ParamSpecs, s: ParamSpec, i: nat, j: nat)
    requires i < |c.nodes| && j < |c.nodes[i].item.where|
    ensures Static(i, c.nodes[i].item.where[j]) in NodeParts(c, s, i)
  {
    assert NodeParts(c, s, i)[j] == Static(i, c.nodes[i].item.where[j]);
  }

  lemma PartsStep(c: ParamSpecs, s: ParamSpec, k: nat)
    requires 0 < k <= |c.nodes|
    ensures Parts(c, s, k) == Parts(c, s, k - 1) + NodeParts(c, s, k - 1)
  {
  }

  lemma InConcat(x: WherePart, a: seq<WherePart>, b: seq<WherePart>)
    ensures x in a + b <==> x in a || x in b
  {
  }

  /** Every fragment comes from a visited node: nodes after the target add
      none. */
  lemma {:induction false} PartsComeFromVisitedNodes(c: ParamSpecs, s: ParamSpec, k: nat)
    requires k <= |c.nodes|
    ensures forall j :: 0 <= j < |Parts(c, s, k)| ==> Parts(c, s, k)[j].node < k
    decreases k
  {
    if k > 0 {
      PartsComeFromVisitedNodes(c, s, k - 1);
      var before := Parts(c, s, k - 1);
      var node := NodeParts(c, s, k - 1);
      NodePartsShape(c, s, k - 1);
      assert Parts(c, s, k) == before + node;
      forall j | 0 <= j < |Parts(c, s, k)|
        ensures Parts(c, s, k)[j].node < k
      {
        if j < |before| {
          assert Parts(c, s, k)[j] == before[j];
        } else {
          assert Parts(c, s, k)[j] == node[j - |before|];
        }
      }
    }
  }

  /** No fragment at all exactly when every visited node has no static
      condition and equals the spec (so leaves no placeholder). */
  lemma PartsEmpty(c: ParamSpecs, s: ParamSpec, k: nat)
    requires k <= |c.nodes|
    ensures |Parts(c, s, k)| == 0 <==> forall i :: 0 <= i < k ==> NodeSilent(c, s, i)
  {
    if forall i :: 0 <= i < k ==> NodeSilent(c, s, i) {
      SilentNodesGiveNoParts(c, s, k);
    }
    if |Parts(c, s, k)| == 0 {
      forall i | 0 <= i < k
        ensures NodeSilent(c, s, i)
      {
        NoPartsMeansSilentNode(c, s, k, i);
      }
    }
  }

  /** A node that adds no fragment. */
  predicate NodeSilent(c: ParamSpecs, s: ParamSpec, i: nat)
    requires i < |c.nodes|
  {
    |c.nodes[i].item.where| == 0 && Specs.Equal(s, c.nodes[i].item)
  }

  lemma {:induction false} SilentNodesGiveNoParts(c: ParamSpecs, s: ParamSpec, k: nat)
    requires k <= |c.nodes|
    requires forall i :: 0 <= i < k ==> NodeSilent(c, s, i)
    ensures |Parts(c, s, k)| == 0
    decreases k
  {
    if k > 0 {
      SilentNodesGiveNoParts(c, s, k - 1);
      assert NodeSilent(c, s, k - 1);
      NodePartsShape(c, s, k - 1);
      assert |NodeParts(c, s, k - 1)| == 0;
      assert Parts(c, s, k) == Parts(c, s, k - 1) + NodeParts(c, s, k - 1);
    }
  }

  lemma {:induction false} NoPartsMeansSilentNode(c: ParamSpecs, s: ParamSpec, k: nat, i: nat)
    requires i < k <= |c.nodes|
    requires |Parts(c, s, k)| == 0
    ensures NodeSilent(c, s, i)
    decreases k
  {
    LastNodeSilent(c, s, k);
    if i < k - 1 {
      var k' := k - 1;
      assert |Parts(c, s, k')| == 0;
      NoPartsMeansSilentNode(c, s, k', i);
    }
  }

  lemma LastNodeSilent(c: ParamSpecs, s: ParamSpec, k: nat)
    requires 0 < k <= |c.nodes|
    requires |Parts(c, s, k)| == 0
    ensures |Parts(c, s, k - 1)| == 0 && NodeSilent(c, s, k - 1)
  {
    NodePartsShape(c, s, k - 1);
    assert |Parts(c, s, k)| == |Parts(c, s, k - 1)| + |NodeParts(c, s, k - 1)|;
  }

  lemma {:induction false} PartTextsNonEmpty(parts: seq<WherePart>)
    ensures forall j :: 0 <= j < |parts| ==> |PartTexts(parts)[j]| > 0
  {
  }

  /** ` WHERE ` is written exactly when there is a fragment: the target is
      not the first node (so an earlier node left a placeholder), or some
      visited node has a static condition. */
  lemma WhereIffFragments(c: ParamSpecs, s: ParamSpec)
    ensures |WhereText(c, s)| > 0 <==>
            Target(c.nodes, s) > 0 || exists i :: 0 <= i < Visited(c, s) && |c.nodes[i].item.where| > 0
  {
    var k := Visited(c, s);
    var texts := PartTexts(Parts(c, s, k));
    Text.JoinEmpty(" AND ", texts);
    PartsEmpty(c, s, k);
    if |texts| == 1 {
      assert |texts[0]| > 0 by {
        assert texts[0] == PartText(Parts(c, s, k)[0]);
      }
    }
    var t := Target(c.nodes, s);
    if t > 0 {
      assert 0 < k && !Specs.Equal(s, c.nodes[0].item);
    }
  }

  /** When some node equals the spec, the select list is that node's alias
      and lower-cased column, and nothing else. */
  lemma SelectListIsTargetColumn(c: ParamSpecs, s: ParamSpec)
    requires Target(c.nodes, s) < |c.nodes|
    ensures var t := Target(c.nodes, s);
            var column := Alias(t) + "." + Text.ToLower(c.nodes[t].item.column);
            var select := "SELECT " + column + " FROM ";
            |Statement(c, s)| >= |select| && Statement(c, s)[..|select|] == select
  {
    var t := Target(c.nodes, s);
    var column := Alias(t) + "." + Text.ToLower(c.nodes[t].item.column);
    assert Columns(c, s) == [column];
    assert Text.Join(", ", [column]) == column;
    StatementPrefix(c, s, "SELECT " + column + " FROM ");
  }

  /** The statement begins with SELECT, the select list and FROM. */
  lemma StatementPrefix(c: ParamSpecs, s: ParamSpec, head: string)
    requires head == "SELECT " + Text.Join(", ", Columns(c, s)) + " FROM "
    ensures |Statement(c, s)| >= |head| && Statement(c, s)[..|head|] == head
  {
    var select := head + FromClause(c, Visited(c, s));
    Seqs.PrefixOfConcat(head, FromClause(c, Visited(c, s)));
    if |WhereText(c, s)| > 0 {
      Seqs.PrefixOfConcat(select, " WHERE ");
      Seqs.PrefixOfConcat(select + " WHERE ", WhereText(c, s));
      Seqs.PrefixTransitive(select, select + " WHERE ", Statement(c, s));
      Seqs.PrefixTransitive(head, select, Statement(c, s));
    }
  }

  /** When no node equals the spec, the select list is empty and the walk
      visits the whole chain. */
  lemma NoTargetSelectsNothing(c: ParamSpecs, s: ParamSpec)
    requires forall i :: 0 <= i < |c.nodes| ==> !Specs.Equal(s, c.nodes[i].item)
    ensures Visited(c, s) == |c.nodes| && Columns(c, s) == []
    ensures |Statement(c, s)| >= 13 && Statement(c, s)[..13] == "SELECT  FROM "
  {
    assert Target(c.nodes, s) == |c.nodes|;
    assert Text.Join(", ", []) == "";
    StatementPrefix(c, s, "SELECT  FROM ");
  }
}
