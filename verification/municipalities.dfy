/** The municipality catalogue (`composables/useMunicipalities.ts`): the
    select options built from it, lookup by id, and the bounded search. The
    catalogue, read from a JSON file in the source, is a parameter here. */
module Municipalities {
  import opened Wrappers
  import opened Text
  import opened Seqs

  datatype Department = Department(id: int, name: string, code: string)

  /** A catalogue entry; `department` may be missing at run time, which the
      source guards against with `?.`. */
  datatype Municipality = Municipality(id: int, departmentId: int, name: string, code: string, department: Option<Department>)

  /** An entry of `options`. */
  datatype MunicipalityOption = MunicipalityOption(id: int, name: string, departmentName: string, labelText: string)

  /** The two `@vueform/multiselect` shapes and the search result. */
  datatype CityChoice = CityChoice(value: int, labelText: string)
  datatype LabelChoice = LabelChoice(value: string, labelText: string)
  datatype IdLabel = IdLabel(id: int, labelText: string)

  /** The number of options `getFilteredOptions` returns by default. */
  const DefaultLimit: int := 80

  /** `m.department?.name ?? ''`. */
  function DepartmentName(m: Municipality): string {
    if m.department.Some? then m.department.value.name else ""
  }

  /** `getLabel(m)`: `"name (department)"`, or only the name when the
      department name is empty or missing. */
  function GetLabel(m: Municipality): (lbl: string)
    ensures m.name <= lbl
    ensures DepartmentName(m) == "" ==> lbl == m.name
    ensures DepartmentName(m) != "" ==> lbl[|m.name|..] == " (" + DepartmentName(m) + ")"
  {
    if DepartmentName(m) != "" then m.name + " (" + DepartmentName(m) + ")" else m.name
  }

  /** One entry of `options`, with its label written out as the source
      writes it there; it is the label `getLabel` gives. */
  function OptionOf(m: Municipality): (o: MunicipalityOption)
    ensures o.id == m.id && o.name == m.name
    ensures o.departmentName == DepartmentName(m) && o.labelText == GetLabel(m)
  {
    var d := DepartmentName(m);
    MunicipalityOption(m.id, m.name, d, if d != "" then m.name + " (" + d + ")" else m.name)
  }

  /** `options`: one entry per catalogue entry, in catalogue order. */
  function Options(list: seq<Municipality>): (opts: seq<MunicipalityOption>)
    ensures |opts| == |list|
    ensures forall i :: 0 <= i < |list| ==> opts[i] == OptionOf(list[i])
  {
    if list == [] then [] else [OptionOf(list[0])] + Options(list[1..])
  }

  /** `multiselectOptionsByCity`: value the id, label the label. */
  function ByCity(opts: seq<MunicipalityOption>): (r: seq<CityChoice>)
    ensures |r| == |opts|
    ensures forall i :: 0 <= i < |opts| ==> r[i].value == opts[i].id && r[i].labelText == opts[i].labelText
  {
    if opts == [] then [] else [CityChoice(opts[0].id, opts[0].labelText)] + ByCity(opts[1..])
  }

  /** `multiselectOptionsByLabel`: the label is both value and label. */
  function ByLabel(opts: seq<MunicipalityOption>): (r: seq<LabelChoice>)
    ensures |r| == |opts|
    ensures forall i :: 0 <= i < |opts| ==> r[i].value == opts[i].labelText && r[i].labelText == opts[i].labelText
  {
    if opts == [] then [] else [LabelChoice(opts[0].labelText, opts[0].labelText)] + ByLabel(opts[1..])
  }

  /** `list.findIndex(m => m.id === id)` as an index. */
  function FirstWithId(list: seq<Municipality>, id: int): (k: Option<nat>)
    ensures k.Some? ==> k.value < |list| && list[k.value].id == id
    ensures k.Some? ==> forall j :: 0 <= j < k.value ==> list[j].id != id
    ensures k.None? ==> forall j :: 0 <= j < |list| ==> list[j].id != id
  {
    if list == [] then None
    else if list[0].id == id then Some(0)
    else match FirstWithId(list[1..], id)
      case None => None
      case Some(k) => Some(k + 1)
  }

  /** `getById(id)`: nothing for a missing id; otherwise the first entry
      with that id, or nothing when no entry has it. */
  function GetById(list: seq<Municipality>, id: Option<int>): (r: Option<Municipality>)
    ensures id.None? ==> r.None?
    ensures r.Some? ==> id.Some? && r.value.id == id.value
    ensures r.Some? ==> exists k :: 0 <= k < |list| && list[k] == r.value && forall j :: 0 <= j < k ==> list[j].id != id.value
    ensures id.Some? && r.None? ==> forall j :: 0 <= j < |list| ==> list[j].id != id.value
  {
    if id.None? then None
    else match FirstWithId(list, id.value)
      case None => None
      case Some(k) => Some(list[k])
  }

  // ---------------------------------------------------------------------------
  // getFilteredOptions
  // ---------------------------------------------------------------------------

  /** The search condition: the lowercased label or department name contains
      the query. */
  predicate Matches(o: MunicipalityOption, q: string)
    ensures q == [] ==> Matches(o, q)
    ensures Matches(o, q) ==> |q| <= |o.labelText| || |q| <= |o.departmentName|
  {
    assert q == [] ==> OccursAt(Lower(o.labelText), q, 0);
    Contains(Lower(o.labelText), q) || Contains(Lower(o.departmentName), q)
  }

  /** The search condition for one query, as the test the loop applies to
      each option. */
  function Query(q: string): MunicipalityOption -> bool {
    o => Matches(o, q)
  }

  /** The `{id, label}` of every option the test accepts, in order. The
      lemmas about the loop are stated for any test, so that they do not
      depend on how the search condition is computed. */
  function Select(opts: seq<MunicipalityOption>, keep: MunicipalityOption -> bool): (r: seq<IdLabel>)
    ensures |r| <= |opts|
  {
    if opts == [] then []
    else (if keep(opts[0]) then [IdLabel(opts[0].id, opts[0].labelText)] else []) + Select(opts[1..], keep)
  }

  /** Every option that matches the query, in order, as `{id, label}`. */
  function Matching(opts: seq<MunicipalityOption>, q: string): (r: seq<IdLabel>)
    ensures |r| <= |opts|
  {
    Select(opts, Query(q))
  }

  lemma {:induction false} SelectAppend(a: seq<MunicipalityOption>, b: seq<MunicipalityOption>, keep: MunicipalityOption -> bool)
    ensures Select(a + b, keep) == Select(a, keep) + Select(b, keep)
  {
    if a == [] {
      assert a + b == b;
    } else {
      var head := if keep(a[0]) then [IdLabel(a[0].id, a[0].labelText)] else [];
      var x, y := Select(a[1..], keep), Select(b, keep);
      TailOfAppend(a, b);
      SelectAppend(a[1..], b, keep);
      assert Select(a + b, keep) == head + (x + y);
      assert Select(a, keep) == head + x;
      AppendAssoc(head, x, y);
    }
  }

  /** Nothing but accepted options, and each comes from an option of the
      list. */
  lemma {:induction false} SelectSound(opts: seq<MunicipalityOption>, keep: MunicipalityOption -> bool, i: int)
    requires 0 <= i < |Select(opts, keep)|
    ensures exists j ::
      0 <= j < |opts| && keep(opts[j]) && Select(opts, keep)[i] == IdLabel(opts[j].id, opts[j].labelText)
  {
    if keep(opts[0]) && i == 0 {
      assert Select(opts, keep)[0] == IdLabel(opts[0].id, opts[0].labelText);
    } else {
      var head := if keep(opts[0]) then 1 else 0;
      var first := if keep(opts[0]) then [IdLabel(opts[0].id, opts[0].labelText)] else [];
      assert Select(opts, keep) == first + Select(opts[1..], keep);
      IndexPastLeft(first, Select(opts[1..], keep), i);
      SelectSound(opts[1..], keep, i - head);
      var j :| 0 <= j < |opts[1..]| && keep(opts[1..][j])
        && Select(opts[1..], keep)[i - head] == IdLabel(opts[1..][j].id, opts[1..][j].labelText);
      IndexOfTail(opts, j);
      var k := j + 1;
      assert 0 <= k < |opts| && keep(opts[k]) && Select(opts, keep)[i] == IdLabel(opts[k].id, opts[k].labelText);
    }
  }

  /** Every accepted option is found. */
  lemma {:induction false} SelectComplete(opts: seq<MunicipalityOption>, keep: MunicipalityOption -> bool, j: int)
    requires 0 <= j < |opts| && keep(opts[j])
    ensures IdLabel(opts[j].id, opts[j].labelText) in Select(opts, keep)
  {
    if j > 0 {
      SelectComplete(opts[1..], keep, j - 1);
      IndexOfTail(opts, j - 1);
    }
  }

  /** Matching distributes over concatenation. */
  lemma {:induction false} MatchingAppend(a: seq<MunicipalityOption>, b: seq<MunicipalityOption>, q: string)
    ensures Matching(a + b, q) == Matching(a, q) + Matching(b, q)
  {
    SelectAppend(a, b, Query(q));
  }

  /** Every result comes from an option whose lowercased label or department
      name contains the query. */
  lemma {:induction false} MatchingSound(opts: seq<MunicipalityOption>, q: string, i: int)
    requires 0 <= i < |Matching(opts, q)|
    ensures exists j ::
      0 <= j < |opts| && Matches(opts[j], q) && Matching(opts, q)[i] == IdLabel(opts[j].id, opts[j].labelText)
  {
    SelectSound(opts, Query(q), i);
    var j :| 0 <= j < |opts| && Query(q)(opts[j]) && Select(opts, Query(q))[i] == IdLabel(opts[j].id, opts[j].labelText);
    assert Matches(opts[j], q);
  }

  /** Every matching option is found. */
  lemma {:induction false} MatchingComplete(opts: seq<MunicipalityOption>, q: string, j: int)
    requires 0 <= j < |opts| && Matches(opts[j], q)
    ensures IdLabel(opts[j].id, opts[j].labelText) in Matching(opts, q)
  {
    assert Query(q)(opts[j]);
    SelectComplete(opts, Query(q), j);
  }

  /** The end index of `slice(0, limit)` on a list of length `n`: a negative
      limit counts from the end. */
  function SliceEnd(n: nat, limit: int): (e: nat)
    ensures e <= n
    ensures 0 <= limit ==> e == if limit < n then limit else n
  {
    if limit < 0 then (if n + limit < 0 then 0 else n + limit)
    else if limit < n then limit
    else n
  }

  /** The projection `o => ({ id: o.id, label: o.label })`. */
  function IdLabels(opts: seq<MunicipalityOption>): (r: seq<IdLabel>)
    ensures |r| == |opts|
    ensures forall i :: 0 <= i < |opts| ==> r[i] == IdLabel(opts[i].id, opts[i].labelText)
  {
    if opts == [] then [] else [IdLabel(opts[0].id, opts[0].labelText)] + IdLabels(opts[1..])
  }

  /** How many matches the loop keeps: it stops adding once it has `limit`. */
  function Kept(found: nat, limit: int): (n: nat)
    ensures n <= found
    ensures 0 <= limit ==> n <= limit
    ensures found < limit ==> n == found
  {
    if limit <= 0 then 0 else if limit < found then limit else found
  }

  /** One more option of the prefix adds its `{id, label}` exactly when the
      test accepts it. */
  lemma {:induction false} SelectStep(opts: seq<MunicipalityOption>, keep: MunicipalityOption -> bool, i: nat)
    requires i < |opts|
    ensures Select(opts[..i + 1], keep)
         == Select(opts[..i], keep) + (if keep(opts[i]) then [IdLabel(opts[i].id, opts[i].labelText)] else [])
  {
    SliceSnoc(opts, i);
    SelectAppend(opts[..i], [opts[i]], keep);
    assert Select([opts[i]], keep) == (if keep(opts[i]) then [IdLabel(opts[i].id, opts[i].labelText)] else []) + Select([], keep);
  }

  /** The count `Kept` gives when the loop has stopped with `found` matches
      out of `total`: it ran out of options or reached `limit`, and it never
      goes past `limit`. */
  lemma {:induction false} KeptAtStop(found: nat, total: nat, limit: int)
    requires found <= total
    requires found == total || found >= limit
    requires found == 0 || found <= limit
    ensures Kept(total, limit) == found
  {
  }

  /** Where the loop stops: when it has run through the list, or when the
      results so far reached `limit` (and, as the loop adds one at a time,
      did not pass it), it holds the first `Kept` results. */
  lemma {:induction false} StopsAtLimit(opts: seq<MunicipalityOption>, keep: MunicipalityOption -> bool, i: int, limit: int)
    requires 0 <= i <= |opts|
    requires |Select(opts[..i], keep)| == 0 || |Select(opts[..i], keep)| <= limit
    requires i == |opts| || |Select(opts[..i], keep)| >= limit
    ensures Select(opts[..i], keep) == Select(opts, keep)[..Kept(|Select(opts, keep)|, limit)]
  {
    var m := Select(opts, keep);
    var found := Select(opts[..i], keep);
    var rest := Select(opts[i..], keep);
    SliceSplit(opts, i);
    SelectAppend(opts[..i], opts[i..], keep);
    assert m == found + rest;
    if i == |opts| {
      assert opts[i..] == [];
      assert |m| == |found|;
    }
    KeptAtStop(|found|, |m|, limit);
    PrefixOfAppend(found, rest);
  }

  /** The loop of `getFilteredOptions`: it walks the options in order,
      stopping as soon as it holds `limit` results, and returns the results
      it collected, which are the first `Kept` of all of them. */
  method CollectMatches(opts: seq<MunicipalityOption>, keep: MunicipalityOption -> bool, limit: int) returns (filtered: seq<IdLabel>)
    ensures filtered == Select(opts, keep)[..Kept(|Select(opts, keep)|, limit)]
  {
    filtered := [];
    var i := 0;
    while i < |opts|
      invariant 0 <= i <= |opts|
      invariant filtered == Select(opts[..i], keep)
      invariant |filtered| == 0 || |filtered| <= limit
    {
      if |filtered| >= limit {
        break;
      }
      var o := opts[i];
      var isMatch := keep(o);
      SelectStep(opts, keep, i);
      if isMatch {
        filtered := filtered + [IdLabel(o.id, o.labelText)];
      }
      i := i + 1;
    }
    StopsAtLimit(opts, keep, i, limit);
  }

  /** `getFilteredOptions(search, limit)`. A blank search gives the first
      `limit` options (`slice` semantics); otherwise the options whose
      lowercased label or department name contains the trimmed, lowercased
      query, in order, stopping at `limit`. */
  method GetFilteredOptions(opts: seq<MunicipalityOption>, search: string, limit: int := DefaultLimit) returns (r: seq<IdLabel>)
    ensures Lower(Trim(search)) == "" ==> r == IdLabels(opts[..SliceEnd(|opts|, limit)])
    ensures Lower(Trim(search)) != "" ==>
      r == Matching(opts, Lower(Trim(search)))[..Kept(|Matching(opts, Lower(Trim(search)))|, limit)]
  {
    var q := Lower(Trim(search));
    if q == "" {
      return IdLabels(opts[..SliceEnd(|opts|, limit)]);
    }
    r := CollectMatches(opts, Query(q), limit);
  }
}
