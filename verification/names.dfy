/** Author lists: Python's `", ".join(names)`, and a splitter that undoes it,
    which shows that the joined string keeps every name, in order. */
module Names {

  predicate NoComma(s: string) {
    forall i :: 0 <= i < |s| ==> s[i] != ','
  }

  /** `", ".join(names)`: the names in order, one `", "` between neighbours.
      Built from the front; the contract reads it from the back: the last
      name follows the join of all the others after exactly one `", "`. */
  function Join(names: seq<string>): (r: string)
    ensures |names| == 0 ==> r == ""
    ensures |names| == 1 ==> r == names[0]
    ensures |names| > 1 ==> r == Join(names[..|names| - 1]) + ", " + names[|names| - 1]
    decreases |names|
  {
    if |names| == 0 then ""
    else if |names| == 1 then names[0]
    else
      var n := |names|;
      assert names[..n - 1][1..] == names[1..][..n - 2];
      names[0] + ", " + Join(names[1..])
  }

  /** Cut a string at every `", "`; the empty string is one empty piece, as in
      Python's `"".split(", ")`. */
  function Split(s: string): (r: seq<string>)
    ensures |r| >= 1
    decreases |s|
  {
    if |s| == 0 then [""]
    else if |s| >= 2 && s[0] == ',' && s[1] == ' ' then [""] + Split(s[2..])
    else
      var t := Split(s[1..]);
      [[s[0]] + t[0]] + t[1..]
  }

  /** A separator-free prefix glues onto the first piece of what follows. */
  lemma {:induction false} SplitPrefix(x: string, s: string)
    requires NoComma(x)
    ensures Split(x + s) == [x + Split(s)[0]] + Split(s)[1..]
    decreases |x|
  {
    if |x| > 0 {
      assert (x + s)[1..] == x[1..] + s;
      SplitPrefix(x[1..], s);
      assert [x[0]] + (x[1..] + Split(s)[0]) == x + Split(s)[0];
    } else {
      var t := Split(s);
      assert x + s == s;
      assert x + t[0] == t[0];
      assert t == [t[0]] + t[1..];
    }
  }

  /** A leading separator starts a new, empty first piece. */
  lemma SplitSeparator(s: string)
    ensures Split(", " + s) == [""] + Split(s)
  {
  }

  /** One name in front of a separator and a string that splits to `tail`
      splits to that name followed by `tail`. */
  lemma SplitCons(first: string, rest: string, tail: seq<string>)
    requires NoComma(first) && Split(rest) == tail
    ensures Split(first + (", " + rest)) == [first] + tail
  {
    SplitSeparator(rest);
    SplitPrefix(first, ", " + rest);
    assert first + "" == first;
  }

  /** Splitting undoes joining when no name contains a comma: the joined
      author string determines the author list. */
  lemma {:induction false} SplitJoin(names: seq<string>)
    requires |names| > 0
    requires forall i :: 0 <= i < |names| ==> NoComma(names[i])
    ensures Split(Join(names)) == names
    decreases |names|
  {
    if |names| == 1 {
      SplitPrefix(names[0], "");
      assert names[0] + "" == names[0];
    } else {
      SplitJoin(names[1..]);
      SplitCons(names[0], Join(names[1..]), names[1..]);
      assert Join(names) == names[0] + (", " + Join(names[1..]));
      assert names == [names[0]] + names[1..];
    }
  }
}
