/**
 * `EditableCheckboxGroupField::getValueFromData`: the submitted value of
 * a checkbox group as one string. A scalar submission counts as a list of
 * one; the values are concatenated with ", ", except that while the result
 * so far is falsy in PHP ("" or "0") the next value replaces it.
 */
module CheckboxGroup {
  import opened PhpStrings

  /** A key of a PHP array: an integer or a string. */
  datatype ArrayKey = IntKey(i: int) | StringKey(s: string)

  /** What the form posted under the field's name: one string, or an array of them. */
  datatype Submitted = Scalar(value: string) | Array(entries: seq<(ArrayKey, string)>)

  /** The values the loop visits, in iteration order; the keys are not used. */
  function Entries(data: Submitted): (r: seq<string>)
    ensures data.Scalar? ==> r == [data.value]
    ensures data.Array? ==> |r| == |data.entries|
    ensures data.Array? ==> forall i :: 0 <= i < |r| ==> r[i] == data.entries[i].1
  {
    match data
    case Scalar(v) => [v]
    case Array(es) => seq(|es|, i requires 0 <= i < |es| => es[i].1)
  }

  /** The position of the first truthy value, or `|vs|` when there is none. */
  function FirstTruthy(vs: seq<string>): (k: nat)
    ensures k <= |vs|
    ensures forall j :: 0 <= j < k ==> !Truthy(vs[j])
    ensures k < |vs| ==> Truthy(vs[k])
  {
    if vs == [] then 0
    else if Truthy(vs[0]) then 0
    else 1 + FirstTruthy(vs[1..])
  }

  /**
   * Reference definition of the joined value: all values from the first
   * truthy one on, joined by ", "; when no value is truthy, the last value
   * (each falsy value replaced the one before), or "" for no values.
   */
  function Joined(vs: seq<string>): string {
    var k := FirstTruthy(vs);
    if k < |vs| then Implode(", ", vs[k..])
    else if vs == [] then ""
    else vs[|vs| - 1]
  }

  /** One iteration of the loop: replace a falsy result, append to a truthy one. */
  function Accumulate(result: string, value: string): (r: string)
    ensures !Truthy(result) ==> r == value
    ensures Truthy(result) ==> result + ", " <= r && r[|result| + 2..] == value
  {
    if !Truthy(result) then value else result + ", " + value
  }

  /** The values joined from a truthy first one stay truthy. */
  lemma ImplodeFromTruthy(vs: seq<string>)
    requires vs != [] && Truthy(vs[0])
    ensures Truthy(Implode(", ", vs))
  {
  }

  /** The loop's step agrees with the reference: `Joined` is the fold of `Accumulate`. */
  lemma {:induction false} JoinedSnoc(vs: seq<string>, v: string)
    ensures Joined(vs + [v]) == Accumulate(Joined(vs), v)
  {
    var k := FirstTruthy(vs);
    var ws := vs + [v];
    assert forall j :: 0 <= j < |vs| ==> ws[j] == vs[j];
    FirstTruthyPrefix(vs, v);
    if k < |vs| {
      ImplodeFromTruthy(vs[k..]);
      assert ws[k..] == vs[k..] + [v];
      ImplodeSnoc(", ", vs[k..], v);
    } else if Truthy(v) {
      assert ws[k..] == [v];
    }
  }

  /** Appending a value does not move an existing first truthy value. */
  lemma {:induction false} FirstTruthyPrefix(vs: seq<string>, v: string)
    ensures FirstTruthy(vs + [v]) == if FirstTruthy(vs) < |vs| then FirstTruthy(vs)
                                     else if Truthy(v) then |vs| else |vs| + 1
  {
    if vs != [] {
      assert (vs + [v])[0] == vs[0];
      assert (vs + [v])[1..] == vs[1..] + [v];
      FirstTruthyPrefix(vs[1..], v);
    } else {
      assert [v][1..] == [];
    }
  }

  /**
   * `getValueFromData($data)`, where `name` is `$this->Name`: wraps a
   * scalar submission into a list and folds its values into one string.
   */
  method GetValueFromData(name: string, data: map<string, Submitted>) returns (result: string)
    requires name in data
    ensures result == Joined(Entries(data[name]))
  {
    result := "";
    var entries := data[name];
    if !entries.Array? {
      entries := Array([(IntKey(0), entries.value)]);
    }
    var es := entries.entries;
    ghost var values := Entries(data[name]);
    assert Entries(entries) == values;
    if es != [] {
      var i := 0;
      while i < |es|
        invariant 0 <= i <= |es|
        invariant result == Joined(values[..i])
      {
        var value := es[i].1;
        assert values[..i + 1] == values[..i] + [value];
        JoinedSnoc(values[..i], value);
        ghost var before := result;
        if !Truthy(result) {
          result := value;
        } else {
          result := result + ", " + value;
        }
        assert result == Accumulate(before, value);
        i := i + 1;
      }
      assert values[..|es|] == values;
    }
  }

  /** A scalar submission comes back unchanged. */
  lemma ScalarUnchanged(v: string)
    ensures Joined(Entries(Scalar(v))) == v
  {
  }

  /** No entries give the empty string. */
  lemma NoEntriesEmpty()
    ensures Joined(Entries(Array([]))) == ""
  {
  }

  /** When every value is truthy, the result is all of them joined by ", " in order. */
  lemma AllTruthyJoined(vs: seq<string>)
    requires forall i :: 0 <= i < |vs| ==> Truthy(vs[i])
    ensures Joined(vs) == Implode(", ", vs)
  {
    assert vs[0..] == vs;
  }

  /** Keys play no part: submissions with the same values in the same order give the same result. */
  lemma KeysIgnored(a: seq<(ArrayKey, string)>, b: seq<(ArrayKey, string)>)
    requires |a| == |b|
    requires forall i :: 0 <= i < |a| ==> a[i].1 == b[i].1
    ensures Joined(Entries(Array(a))) == Joined(Entries(Array(b)))
  {
    assert Entries(Array(a)) == Entries(Array(b));
  }

  /** A leading falsy value is dropped when more values follow. */
  lemma {:induction false} LeadingFalsyDropped(f: string, vs: seq<string>)
    requires !Truthy(f) && vs != []
    ensures Joined([f] + vs) == Joined(vs)
  {
    var ws := [f] + vs;
    assert ws[0] == f;
    assert ws[1..] == vs;
    var k := FirstTruthy(vs);
    assert FirstTruthy(ws) == 1 + k;
    if k < |vs| {
      assert ws[1 + k..] == vs[k..];
    }
  }

  /**
   * The result never starts with the separator it adds: it is "" or it
   * starts with the first truthy value, or, when there is none, it is the
   * last value.
   */
  lemma NoLeadingSeparator(vs: seq<string>)
    ensures var k := FirstTruthy(vs);
            k < |vs| ==> vs[k] <= Joined(vs)
    ensures FirstTruthy(vs) == |vs| ==> Joined(vs) == (if vs == [] then "" else vs[|vs| - 1])
  {
  }

  /** Once the result is truthy, every later value is appended after ", ". */
  lemma {:induction false} TruthyStaysTruthy(vs: seq<string>, v: string)
    requires Truthy(Joined(vs))
    ensures Joined(vs + [v]) == Joined(vs) + ", " + v
    ensures Truthy(Joined(vs + [v]))
  {
    JoinedSnoc(vs, v);
  }
}
