/**
 * The keyed records the record adapter works on (the objects of
 * src/transformations/csvTransformations.js and src/utils/fileUtils.js).
 * A record is its `id` property, which may be absent, and its other
 * properties as an ordered list of name/value pairs, in insertion order.
 * Property values are strings.
 */
module Records {
  import opened Wrappers
  import opened Matrices

  /** An `id` value: a number (a position) or a string (read from a cell). */
  datatype Id = NumId(n: int) | StrId(s: string)

  datatype Field = Field(name: string, value: string)

  datatype Record = Record(id: Option<Id>, fields: seq<Field>)

  /** The property names, in order. */
  function Names(fields: seq<Field>): (r: seq<string>)
    ensures |r| == |fields|
    ensures forall i :: 0 <= i < |fields| ==> r[i] == fields[i].name
  {
    seq(|fields|, i requires 0 <= i < |fields| => fields[i].name)
  }

  /** A record an object can be: no name twice, and no field named "id". */
  predicate WellFormed(r: Record)
  {
    Distinct(Names(r.fields)) && "id" !in Names(r.fields)
  }

  /** `obj[name]` for a name other than "id": the value, or None when absent. */
  function Lookup(fields: seq<Field>, name: string): (r: Option<string>)
    ensures r.None? <==> name !in Names(fields)
  {
    var i := IndexOf(Names(fields), name);
    if i < 0 then None else Some(fields[i].value)
  }

  /** When no name repeats, a name's lookup is the value stored with it. */
  lemma LookupAt(fields: seq<Field>, k: nat)
    requires Distinct(Names(fields)) && k < |fields|
    ensures Lookup(fields, fields[k].name) == Some(fields[k].value)
  {
    IndexOfDistinct(Names(fields), k);
  }

  /** `obj[name] || ''` for a string-valued property. */
  function ValueOr(r: Record, name: string): string
  {
    Lookup(r.fields, name).GetOr("")
  }

  /**
   * `obj[name] = value`: the name "id" sets the id to the (string) value;
   * any other name overwrites its value in place when present and is
   * appended last otherwise.
   */
  function SetField(rec: Record, name: string, value: string): (r: Record)
    ensures name == "id" ==> r.id == Some(StrId(value)) && r.fields == rec.fields
    ensures name != "id" ==> r.id == rec.id && Lookup(r.fields, name) == Some(value)
    ensures name != "id" && name in Names(rec.fields) ==> Names(r.fields) == Names(rec.fields)
    ensures name != "id" && name !in Names(rec.fields) ==> Names(r.fields) == Names(rec.fields) + [name]
    ensures WellFormed(rec) ==> WellFormed(r)
  {
    if name == "id" then rec.(id := Some(StrId(value)))
    else
      var i := IndexOf(Names(rec.fields), name);
      if i < 0 then
        var fields := rec.fields + [Field(name, value)];
        assert Names(fields) == Names(rec.fields) + [name];
        assert Names(fields)[..|rec.fields|] == Names(rec.fields);
        rec.(fields := fields)
      else
        var fields := rec.fields[i := Field(name, value)];
        assert Names(fields) == Names(rec.fields);
        rec.(fields := fields)
  }

  /** Setting one name leaves the value of every other name as it was. */
  lemma SetFieldKeepsOthers(rec: Record, name: string, value: string, other: string)
    requires name != "id" && other != name
    ensures Lookup(SetField(rec, name, value).fields, other) == Lookup(rec.fields, other)
  {
    var i := IndexOf(Names(rec.fields), name);
    if 0 <= i {
      var f := SetField(rec, name, value).fields;
      assert f == rec.fields[i := Field(name, value)];
      assert Names(f) == Names(rec.fields)[i := name];
      var j := IndexOf(Names(rec.fields), other);
      if 0 <= j {
        assert j != i;
        assert IndexOf(Names(f), other) == j;
      } else {
        assert other !in Names(f);
      }
    } else if name != other {
      var f := SetField(rec, name, value).fields;
      assert Names(f) == Names(rec.fields) + [name];
      IndexOfAppend(Names(rec.fields), name, other);
      var j := IndexOf(Names(rec.fields), other);
      if 0 <= j {
        assert f[j] == rec.fields[j];
      }
    }
  }

  /** Setting a new name other than "id" appends exactly that field. */
  lemma SetFieldAppends(rec: Record, name: string, value: string)
    requires name != "id" && name !in Names(rec.fields)
    ensures SetField(rec, name, value) == rec.(fields := rec.fields + [Field(name, value)])
  {
  }

  /** `Object.keys(record).filter(key => key !== 'id')`. */
  function Keys(r: Record): (keys: seq<string>)
    ensures "id" !in keys
    ensures WellFormed(r) ==> keys == Names(r.fields)
  {
    Remove(Names(r.fields), "id")
  }

  /** Exchanging two fields changes the order of the names but no name's value. */
  lemma LookupSwapped(fields: seq<Field>, a: nat, b: nat)
    requires Distinct(Names(fields)) && a < |fields| && b < |fields|
    ensures Distinct(Names(fields[a := fields[b]][b := fields[a]]))
    ensures forall n :: Lookup(fields[a := fields[b]][b := fields[a]], n) == Lookup(fields, n)
  {
    var f := fields[a := fields[b]][b := fields[a]];
    assert forall k :: 0 <= k < |f| ==> f[k] == fields[if k == a then b else if k == b then a else k];
    forall i, j | 0 <= i < j < |f| ensures Names(f)[i] != Names(f)[j] {
      var i' := if i == a then b else if i == b then a else i;
      var j' := if j == a then b else if j == b then a else j;
      assert f[i] == fields[i'] && f[j] == fields[j'];
    }
    forall n ensures Lookup(f, n) == Lookup(fields, n) {
      if n in Names(fields) {
        var m := IndexOf(Names(fields), n);
        var k := if m == a then b else if m == b then a else m;
        assert f[k] == fields[m];
        LookupAt(f, k);
        LookupAt(fields, m);
      } else {
        forall k | 0 <= k < |f| ensures Names(f)[k] != n {
          var k' := if k == a then b else if k == b then a else k;
          assert f[k] == fields[k'];
        }
      }
    }
  }

  /** Removing field `m` removes its name and leaves every other name's value. */
  lemma LookupRemoveAt(fields: seq<Field>, m: nat)
    requires Distinct(Names(fields)) && m < |fields|
    ensures Distinct(Names(fields[..m] + fields[m + 1..]))
    ensures Lookup(fields[..m] + fields[m + 1..], fields[m].name) == None
    ensures forall n :: n != fields[m].name ==> Lookup(fields[..m] + fields[m + 1..], n) == Lookup(fields, n)
  {
    var rest := fields[..m] + fields[m + 1..];
    assert forall k :: 0 <= k < |rest| ==> rest[k] == fields[if k < m then k else k + 1];
    forall i, j | 0 <= i < j < |rest| ensures Names(rest)[i] != Names(rest)[j] {
      assert rest[i] == fields[if i < m then i else i + 1];
      assert rest[j] == fields[if j < m then j else j + 1];
    }
    forall k | 0 <= k < |rest| ensures Names(rest)[k] != fields[m].name {
      assert rest[k] == fields[if k < m then k else k + 1];
    }
    forall n | n != fields[m].name ensures Lookup(rest, n) == Lookup(fields, n) {
      if n in Names(fields) {
        var p := IndexOf(Names(fields), n);
        var q := if p < m then p else p - 1;
        assert rest[q] == fields[p];
        LookupAt(rest, q);
        LookupAt(fields, p);
      } else {
        forall k | 0 <= k < |rest| ensures Names(rest)[k] != n {
          assert rest[k] == fields[if k < m then k else k + 1];
        }
      }
    }
  }
}
