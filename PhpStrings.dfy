/**
 * The few PHP string primitives the form fields rely on: truthiness of a
 * string in a boolean context, `implode`, and a single-character split
 * that undoes `implode` when no part contains the separator.
 */
module PhpStrings {

  /** A PHP string is falsy exactly when it is "" or "0". */
  predicate Truthy(s: string)
  {
    s != "" && s != "0"
  }

  /** Only the empty string and "0" are falsy: every longer string and every other single character is truthy. */
  lemma TruthyByLength(s: string)
    ensures !Truthy("") && !Truthy("0")
    ensures |s| >= 2 ==> Truthy(s)
    ensures |s| == 1 ==> (Truthy(s) <==> s[0] != '0')
  {
  }

  /** A string that does not contain the character `c`. */
  predicate Free(c: char, s: string) {
    forall i :: 0 <= i < |s| ==> s[i] != c
  }

  /** `implode($sep, $parts)`: the parts in order with `sep` between neighbours. */
  function Implode(sep: string, parts: seq<string>): (r: string)
    ensures parts == [] ==> r == ""
    ensures parts != [] ==> parts[0] <= r
    ensures |parts| > 1 ==> parts[0] + sep <= r
  {
    if parts == [] then ""
    else if |parts| == 1 then parts[0]
    else parts[0] + sep + Implode(sep, parts[1..])
  }

  /** Adding one more part extends the imploded string by a separator and that part. */
  lemma {:induction false} ImplodeSnoc(sep: string, parts: seq<string>, x: string)
    requires parts != []
    ensures Implode(sep, parts + [x]) == Implode(sep, parts) + sep + x
  {
    if |parts| == 1 {
      assert parts + [x] == [parts[0], x];
    } else {
      var ys := parts + [x];
      assert ys[0] == parts[0];
      assert ys[1..] == parts[1..] + [x];
      ImplodeSnoc(sep, parts[1..], x);
      calc {
        Implode(sep, ys);
        parts[0] + sep + Implode(sep, parts[1..] + [x]);
        parts[0] + sep + (Implode(sep, parts[1..]) + sep + x);
        (parts[0] + sep + Implode(sep, parts[1..])) + sep + x;
      }
    }
  }

  /** `explode` on one character: the maximal pieces of `s` between occurrences of `c`. */
  function Split(c: char, s: string): (r: seq<string>)
    ensures |r| >= 1
    decreases |s|
  {
    if s == [] then [""]
    else
      var rest := Split(c, s[1..]);
      if s[0] == c then [""] + rest
      else [[s[0]] + rest[0]] + rest[1..]
  }

  /** A prefix free of the separator is glued onto the first piece. */
  lemma {:induction false} SplitFreePrefix(c: char, x: string, t: string)
    requires Free(c, x)
    ensures Split(c, x + t) == [x + Split(c, t)[0]] + Split(c, t)[1..]
    decreases |x|
  {
    if x == [] {
      var r := Split(c, t);
      assert x + t == t;
      assert x + r[0] == r[0];
      assert [r[0]] + r[1..] == r;
    } else {
      assert (x + t)[1..] == x[1..] + t;
      SplitFreePrefix(c, x[1..], t);
      assert [x[0]] + (x[1..] + Split(c, t)[0]) == x + Split(c, t)[0];
    }
  }

  /** Splitting undoes imploding with a one-character separator that no part contains. */
  lemma {:induction false} SplitImplode(c: char, parts: seq<string>)
    requires parts != []
    requires forall i :: 0 <= i < |parts| ==> Free(c, parts[i])
    ensures Split(c, Implode([c], parts)) == parts
  {
    if |parts| == 1 {
      SplitFreePrefix(c, parts[0], "");
      assert parts[0] + "" == parts[0];
    } else {
      var rest := Implode([c], parts[1..]);
      SplitImplode(c, parts[1..]);
      assert Implode([c], parts) == parts[0] + ([c] + rest);
      SplitFreePrefix(c, parts[0], [c] + rest);
      assert ([c] + rest)[1..] == rest;
      assert Split(c, [c] + rest) == [""] + parts[1..];
      assert parts[0] + "" == parts[0];
      assert parts == [parts[0]] + parts[1..];
    }
  }
}
