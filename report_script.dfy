/**
 * The data shaping of `search_artworks` in app/artworks-report-script.py: the
 * response's records are cut to the requested number, the comma-separated
 * field string is split into names, and every record is projected onto those
 * names by a dict comprehension inside a loop that appends to a new list.
 *
 * The HTTP request is replaced by its decoded response `json`; the PDF
 * output of `reportFilling` and the logging are not part of this model.
 */
module ReportScript {
  import opened Values
  import opened Strings
  import Response

  // ---------------------------------------------------------------------------
  // Field names in order of first occurrence
  // ---------------------------------------------------------------------------

  predicate NoDuplicates(xs: seq<string>)
  {
    forall i, j :: 0 <= i < j < |xs| ==> xs[i] != xs[j]
  }

  /** The distinct names of `xs`, each where it first occurs. */
  function Distinct(xs: seq<string>): seq<string>
    decreases |xs|
  {
    if xs == [] then []
    else
      var d := Distinct(xs[..|xs| - 1]);
      if xs[|xs| - 1] in d then d else d + [xs[|xs| - 1]]
  }

  /** The position where `x` first occurs in `xs`. */
  function IndexOf(xs: seq<string>, x: string): (k: nat)
    requires x in xs
    ensures k < |xs| && xs[k] == x && x !in xs[..k]
  {
    if xs[0] == x then 0
    else
      assert x in xs[1..];
      var k := 1 + IndexOf(xs[1..], x);
      assert xs[..k] == [xs[0]] + xs[1..][..k - 1];
      k
  }

  /** Any position whose prefix does not contain `x` yet is the first one. */
  lemma IndexOfUnique(xs: seq<string>, x: string, k: nat)
    requires k < |xs| && xs[k] == x && x !in xs[..k]
    ensures IndexOf(xs, x) == k
  {
  }

  /** The first occurrence of a name that occurs in a prefix lies in that prefix. */
  lemma IndexOfInPrefix(xs: seq<string>, n: nat, x: string)
    requires n <= |xs| && x in xs[..n]
    ensures IndexOf(xs, x) == IndexOf(xs[..n], x)
  {
  }

  /** `Distinct(xs)` holds exactly the names of `xs`. */
  lemma {:induction false} DistinctElements(xs: seq<string>)
    ensures forall x :: x in Distinct(xs) <==> x in xs
  {
    if xs != [] {
      var p := xs[..|xs| - 1];
      DistinctElements(p);
      assert xs == p + [xs[|xs| - 1]];
    }
  }

  /** `Distinct(xs)` names nothing twice. */
  lemma {:induction false} DistinctNoDuplicates(xs: seq<string>)
    ensures NoDuplicates(Distinct(xs))
  {
    if xs != [] {
      DistinctNoDuplicates(xs[..|xs| - 1]);
    }
  }

  /** `Distinct(xs)` lists the names in the order of their first occurrence in `xs`. */
  lemma {:induction false} DistinctOrder(xs: seq<string>)
    ensures forall x :: x in Distinct(xs) ==> x in xs
    ensures forall i, j :: 0 <= i < j < |Distinct(xs)| ==>
              IndexOf(xs, Distinct(xs)[i]) < IndexOf(xs, Distinct(xs)[j])
  {
    DistinctElements(xs);
    if xs != [] {
      var p := xs[..|xs| - 1];
      var last := xs[|xs| - 1];
      var d := Distinct(p);
      DistinctOrder(p);
      DistinctElements(p);
      assert xs[..|xs| - 1] == p;
      forall i | 0 <= i < |d| ensures IndexOf(xs, d[i]) == IndexOf(p, d[i]) {
        IndexOfInPrefix(xs, |xs| - 1, d[i]);
      }
      if last !in d {
        assert last !in xs[..|xs| - 1];
        IndexOfUnique(xs, last, |xs| - 1);
      }
    }
  }

  /** Names that are already distinct are kept as they are. */
  lemma {:induction false} DistinctOfDistinct(xs: seq<string>)
    requires NoDuplicates(xs)
    ensures Distinct(xs) == xs
  {
    if xs != [] {
      var p := xs[..|xs| - 1];
      DistinctOfDistinct(p);
      assert xs == p + [xs[|xs| - 1]];
      assert xs[|xs| - 1] !in p;
    }
  }

  // ---------------------------------------------------------------------------
  // Projecting one record: {field: item[field] for field in field_list}
  // ---------------------------------------------------------------------------

  /**
   * The comprehension evaluates `item[field]` for each field from left to
   * right and assigns it into a fresh dict; the first failing lookup raises.
   */
  function ProjectItem(item: Value, fields: seq<string>): (r: Result<Record>)
    // the dict's keys are the requested names, each once, in order of first occurrence
    ensures r.Ok? ==> Keys(r.value) == Distinct(fields)
    decreases |fields|
  {
    if fields == [] then Ok([])
    else
      var d :- ProjectItem(item, fields[..|fields| - 1]);
      var f := fields[|fields| - 1];
      var v :- GetItem(item, Str(f));
      SetItemKeys(d, f, v);
      Ok(SetItem(d, f, v))
  }

  /** `rec` is `item` cut down to `fields`: its keys, in order, and its values. */
  predicate IsProjection(rec: Record, item: Value, fields: seq<string>)
  {
    && Keys(rec) == Distinct(fields)
    && forall i :: 0 <= i < |rec| ==> GetItem(item, Str(rec[i].0)) == Ok(rec[i].1)
  }

  /** Projection succeeds exactly when the record is a mapping holding every requested field. */
  lemma {:induction false} ProjectItemSucceeds(item: Value, fields: seq<string>)
    ensures ProjectItem(item, fields).Ok? <==>
              fields == [] || (item.Dict? && forall i :: 0 <= i < |fields| ==> fields[i] in item.entries)
  {
    if fields != [] {
      var p := fields[..|fields| - 1];
      ProjectItemSucceeds(item, p);
      assert forall i :: 0 <= i < |p| ==> p[i] == fields[i];
      if p == [] && !item.Dict? {
        assert GetItem(item, Str(fields[0])).Err?;
      }
    }
  }

  /** A successful projection has the requested keys, in first-occurrence order, with the record's values. */
  lemma {:induction false} ProjectItemShape(item: Value, fields: seq<string>)
    requires ProjectItem(item, fields).Ok?
    ensures IsProjection(ProjectItem(item, fields).value, item, fields)
  {
    if fields != [] {
      var p := fields[..|fields| - 1];
      var f := fields[|fields| - 1];
      ProjectItemShape(item, p);
      var d := ProjectItem(item, p).value;
      var v := GetItem(item, Str(f)).value;
      SetItemKeys(d, f, v);
      SetItemEntries(d, f, v);
      DistinctElements(p);
      assert Keys(d) == Distinct(p);
      assert f in Keys(d) <==> f in Distinct(p);
      var r := SetItem(d, f, v);
      forall i | 0 <= i < |r| ensures GetItem(item, Str(r[i].0)) == Ok(r[i].1) {
        if r[i] != (f, v) {
          var j :| 0 <= j < |d| && d[j] == r[i];
        }
      }
    }
  }

  /** The first requested field that the mapping lacks is the key of the KeyError. */
  lemma {:induction false} ProjectItemMissingField(item: Value, fields: seq<string>, i: nat)
    requires item.Dict? && i < |fields| && fields[i] !in item.entries
    requires forall j :: 0 <= j < i ==> fields[j] in item.entries
    ensures ProjectItem(item, fields) == Err(KeyError(Str(fields[i])))
  {
    var p := fields[..|fields| - 1];
    if i == |fields| - 1 {
      ProjectItemSucceeds(item, p);
    } else {
      ProjectItemMissingField(item, p, i);
    }
  }

  /** A record that is not a mapping fails on the first field with TypeError. */
  lemma {:induction false} ProjectItemNotMapping(item: Value, fields: seq<string>)
    requires !item.Dict? && fields != []
    ensures ProjectItem(item, fields) == Err(TypeError)
  {
    var p := fields[..|fields| - 1];
    if p != [] {
      ProjectItemNotMapping(item, p);
    }
  }

  // ---------------------------------------------------------------------------
  // Projecting every record: the loop that builds filtered_data
  // ---------------------------------------------------------------------------

  /** Every record projected in order; the first record that fails makes the whole list fail. */
  function ProjectAll(items: seq<Value>, fields: seq<string>): (r: Result<seq<Record>>)
    // one projected dict per record
    ensures r.Ok? ==> |r.value| == |items|
  {
    if items == [] then Ok([])
    else
      var d :- ProjectItem(items[0], fields);
      var ds :- ProjectAll(items[1..], fields);
      Ok([d] + ds)
  }

  /** When every record projects, the list holds their projections in order. */
  lemma {:induction false} ProjectAllSucceeds(items: seq<Value>, fields: seq<string>, rs: seq<Record>)
    requires |rs| == |items|
    requires forall k :: 0 <= k < |items| ==> ProjectItem(items[k], fields) == Ok(rs[k])
    ensures ProjectAll(items, fields) == Ok(rs)
  {
    if items != [] {
      ProjectAllSucceeds(items[1..], fields, rs[1..]);
      assert rs == [rs[0]] + rs[1..];
    }
  }

  /** The error of the first record that fails is the error of the whole list. */
  lemma {:induction false} ProjectAllFirstError(items: seq<Value>, fields: seq<string>, i: nat)
    requires i < |items|
    requires forall k :: 0 <= k < i ==> ProjectItem(items[k], fields).Ok?
    requires ProjectItem(items[i], fields).Err?
    ensures ProjectAll(items, fields) == Err(ProjectItem(items[i], fields).error)
  {
    if i > 0 {
      ProjectAllFirstError(items[1..], fields, i - 1);
    }
  }

  /** A successful list is as long as the input and its k-th entry projects the k-th record. */
  lemma {:induction false} ProjectAllResult(items: seq<Value>, fields: seq<string>)
    requires ProjectAll(items, fields).Ok?
    ensures |ProjectAll(items, fields).value| == |items|
    ensures forall k :: 0 <= k < |items| ==> ProjectItem(items[k], fields) == Ok(ProjectAll(items, fields).value[k])
  {
    if items != [] {
      ProjectAllResult(items[1..], fields);
      var rs := ProjectAll(items, fields).value;
      forall k | 0 <= k < |items| ensures ProjectItem(items[k], fields) == Ok(rs[k]) {
        if k > 0 {
          assert items[k] == items[1..][k - 1];
        }
      }
    }
  }

  /**
   * filtered_data = []; for item in data: filtered_data.append({...}).
   * An exception leaves the loop at once, so no list is returned.
   */
  method FilterData(data: seq<Value>, fieldList: seq<string>) returns (r: Result<seq<Record>>)
    ensures r == ProjectAll(data, fieldList)
  {
    var filtered: seq<Record> := [];
    var i := 0;
    while i < |data|
      invariant 0 <= i <= |data|
      invariant |filtered| == i
      invariant forall k :: 0 <= k < i ==> ProjectItem(data[k], fieldList) == Ok(filtered[k])
    {
      var filteredItem := ProjectItem(data[i], fieldList);
      if filteredItem.Err? {
        ProjectAllFirstError(data, fieldList, i);
        return Err(filteredItem.error);
      }
      filtered := filtered + [filteredItem.value];
      i := i + 1;
    }
    ProjectAllSucceeds(data, fieldList, filtered);
    return Ok(filtered);
  }

  // ---------------------------------------------------------------------------
  // search_artworks
  // ---------------------------------------------------------------------------

  /**
   * What `search_artworks` returns for the decoded response `json`: truncation,
   * then `fields.split(',')` (only a string has the method), then projection.
   * This is the functional form of the three steps; the method `SearchArtworks`
   * below is the imperative one, whose projection runs the append loop of `FilterData`.
   */
  function Shape(json: Value, fields: Value, artworks: Value): (r: Result<seq<Record>>)
    ensures json.Dict? && "data" !in json.entries ==> r == Err(KeyError(Str("data")))
    ensures !json.Dict? ==> r == Err(TypeError)
    ensures Response.TruncatedData(json, artworks).Ok? && !fields.Str? ==> r == Err(AttributeError)
  {
    var data :- Response.TruncatedData(json, artworks);
    if !fields.Str? then Err(AttributeError)
    else ProjectAll(Iterate(data), Split(fields.s))
  }

  /** The steps of `search_artworks` in the order the script runs them, proved equal to `Shape`. */
  method SearchArtworks(json: Value, fields: Value, artworks: Value) returns (r: Result<seq<Record>>)
    ensures r == Shape(json, fields, artworks)
  {
    var data := Response.TruncatedData(json, artworks);
    if data.Err? {
      return Err(data.error);
    }
    if !fields.Str? {
      return Err(AttributeError);
    }
    var fieldList := Split(fields.s);
    r := FilterData(Iterate(data.value), fieldList);
  }

  /** Names the requirement that every kept record is a mapping with every requested field. */
  predicate AllFieldsPresent(items: seq<Value>, fieldList: seq<string>)
  {
    forall k :: 0 <= k < |items| ==>
      items[k].Dict? && forall j :: 0 <= j < |fieldList| ==> fieldList[j] in items[k].entries
  }

  /**
   * With a list of records and a non-negative limit, shaping succeeds exactly
   * when every kept record has every requested field; then the result has
   * min(N, artworks) entries, the k-th being the projection of the k-th record.
   */
  lemma ShapeOutcome(m: map<string, Value>, items: seq<Value>, s: string, n: int)
    requires "data" in m && m["data"] == List(items) && n >= 0
    ensures var r := Shape(Dict(m), Str(s), Int(n));
            && (r.Ok? <==> AllFieldsPresent(items[..Min(|items|, n)], Split(s)))
            && (r.Ok? ==>
                  && |r.value| == Min(|items|, n)
                  && forall k :: 0 <= k < |r.value| ==> IsProjection(r.value[k], items[k], Split(s)))
  {
    var kept := items[..Min(|items|, n)];
    assert Response.TruncatedData(Dict(m), Int(n)) == Ok(List(kept));
    ProjectAllOutcome(kept, Split(s));
  }

  /**
   * Projecting a list of records onto at least one field succeeds exactly when
   * every record is a mapping with every requested field, and then the k-th entry is the projection of the k-th record.
   */
  lemma ProjectAllOutcome(kept: seq<Value>, fieldList: seq<string>)
    requires fieldList != []   // `split` never returns an empty list
    ensures var r := ProjectAll(kept, fieldList);
            && (r.Ok? <==> AllFieldsPresent(kept, fieldList))
            && (r.Ok? ==> forall k :: 0 <= k < |r.value| ==> IsProjection(r.value[k], kept[k], fieldList))
  {
    if AllFieldsPresent(kept, fieldList) {
      forall k | 0 <= k < |kept| ensures ProjectItem(kept[k], fieldList).Ok? {
        ProjectItemSucceeds(kept[k], fieldList);
      }
      var rs := seq(|kept|, k requires 0 <= k < |kept| => ProjectItem(kept[k], fieldList).value);
      ProjectAllSucceeds(kept, fieldList, rs);
    } else {
      var first := FirstFailing(kept, fieldList);
      ProjectItemSucceeds(kept[first], fieldList);
      forall i | 0 <= i < first ensures ProjectItem(kept[i], fieldList).Ok? {
        ProjectItemSucceeds(kept[i], fieldList);
      }
      ProjectAllFirstError(kept, fieldList, first);
    }
    var r := ProjectAll(kept, fieldList);
    if r.Ok? {
      ProjectAllResult(kept, fieldList);
      forall k | 0 <= k < |r.value| ensures IsProjection(r.value[k], kept[k], fieldList) {
        ProjectItemShape(kept[k], fieldList);
      }
    }
  }

  /** The first kept record that does not have every requested field. */
  function FirstFailing(items: seq<Value>, fieldList: seq<string>): (k: nat)
    requires !AllFieldsPresent(items, fieldList)
    ensures k < |items|
    ensures !(items[k].Dict? && forall j :: 0 <= j < |fieldList| ==> fieldList[j] in items[k].entries)
    ensures AllFieldsPresent(items[..k], fieldList)
  {
    if !(items[0].Dict? && forall j :: 0 <= j < |fieldList| ==> fieldList[j] in items[0].entries) then 0
    else
      var k := 1 + FirstFailing(items[1..], fieldList);
      assert forall i :: 1 <= i < k ==> items[..k][i] == items[1..][..k - 1][i - 1];
      k
  }

  /**
   * If the first record lacking a field is a mapping, the whole call fails with
   * KeyError on the first missing field of that record: no list is returned.
   */
  lemma MissingFieldFails(m: map<string, Value>, items: seq<Value>, s: string, n: int, k: nat, f: nat)
    requires "data" in m && m["data"] == List(items) && n >= 0 && k < Min(|items|, n)
    requires AllFieldsPresent(items[..k], Split(s))
    requires items[k].Dict? && f < |Split(s)| && Split(s)[f] !in items[k].entries
    requires forall j :: 0 <= j < f ==> Split(s)[j] in items[k].entries
    ensures Shape(Dict(m), Str(s), Int(n)) == Err(KeyError(Str(Split(s)[f])))
  {
    var kept := items[..Min(|items|, n)];
    var fieldList := Split(s);
    assert Response.TruncatedData(Dict(m), Int(n)) == Ok(List(kept));
    forall i | 0 <= i < k ensures ProjectItem(kept[i], fieldList).Ok? {
      assert kept[i] == items[..k][i];
      ProjectItemSucceeds(kept[i], fieldList);
    }
    ProjectItemMissingField(kept[k], fieldList, f);
    ProjectAllFirstError(kept, fieldList, k);
  }
}
