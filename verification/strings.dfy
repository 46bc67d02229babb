/** The few operations of Go's `strings` package that the model relies on. */
module Strings {

  /** `strings.TrimPrefix`: removes one leading copy of `prefix`, if there is one. */
  function TrimPrefix(s: string, prefix: string): (r: string)
    ensures prefix <= s ==> s == prefix + r
    ensures !(prefix <= s) ==> r == s
  {
    if prefix <= s then s[|prefix|..] else s
  }

  /** `strings.Join`: the elements in order, with `sep` between neighbours. */
  function Join(xs: seq<string>, sep: string): string
  {
    if |xs| == 0 then ""
    else if |xs| == 1 then xs[0]
    else xs[0] + sep + Join(xs[1..], sep)
  }

  /** Joining a non-empty tail after one more element puts one separator between them. */
  lemma JoinCons(x: string, xs: seq<string>, sep: string)
    requires |xs| >= 1
    ensures Join([x] + xs, sep) == x + sep + Join(xs, sep)
  {
    assert ([x] + xs)[1..] == xs;
  }

  /** Text put in front of the first element ends up in front of the whole join. */
  lemma JoinPrefixFront(p: string, xs: seq<string>, sep: string)
    requires |xs| >= 1
    ensures Join([p + xs[0]] + xs[1..], sep) == p + Join(xs, sep)
  {
    if |xs| > 1 {
      JoinCons(p + xs[0], xs[1..], sep);
      JoinCons(xs[0], xs[1..], sep);
      assert [xs[0]] + xs[1..] == xs;
    } else {
      assert [p + xs[0]] + xs[1..] == [p + xs[0]];
    }
  }

  /** `strings.Split` for a one-character separator: the maximal pieces between separators. */
  function Split(s: string, sep: char): (r: seq<string>)
    ensures |r| >= 1
    ensures forall i :: 0 <= i < |r| ==> sep !in r[i]
  {
    if |s| == 0 then [""]
    else if s[0] == sep then [""] + Split(s[1..], sep)
    else
      var rest := Split(s[1..], sep);
      [[s[0]] + rest[0]] + rest[1..]
  }

  /** Splitting then re-joining on the same separator gives back the input. */
  lemma {:induction false} JoinSplit(s: string, sep: char)
    ensures Join(Split(s, sep), [sep]) == s
  {
    if |s| == 0 {
    } else if s[0] == sep {
      JoinSplit(s[1..], sep);
      assert s == [sep] + s[1..];
    } else {
      var rest := Split(s[1..], sep);
      JoinSplit(s[1..], sep);
      assert s == [s[0]] + s[1..];
      if |rest| == 1 {
      } else {
        assert Join(rest, [sep]) == rest[0] + [sep] + Join(rest[1..], [sep]);
        var r := Split(s, sep);
        assert r[1..] == rest[1..];
      }
    }
  }

  /** Joining pieces that do not contain the separator, then splitting, gives back the pieces. */
  lemma {:induction false} SplitJoin(xs: seq<string>, sep: char)
    requires |xs| >= 1
    requires forall i :: 0 <= i < |xs| ==> sep !in xs[i]
    ensures Split(Join(xs, [sep]), sep) == xs
    decreases |xs|, |xs[0]|
  {
    if |xs| == 1 {
      SplitNoSeparator(xs[0], sep);
    } else if |xs[0]| == 0 {
      var tail := Join(xs[1..], [sep]);
      assert Join(xs, [sep]) == [sep] + tail;
      assert ([sep] + tail)[1..] == tail;
      SplitJoin(xs[1..], sep);
      assert xs == [""] + xs[1..];
    } else {
      var j := Join(xs, [sep]);
      var ys := [xs[0][1..]] + xs[1..];
      assert ys[1..] == xs[1..];
      assert Join(ys, [sep]) == xs[0][1..] + [sep] + Join(xs[1..], [sep]);
      assert j == [xs[0][0]] + Join(ys, [sep]);
      assert j[1..] == Join(ys, [sep]);
      assert xs[0][1..] == ys[0];
      forall i | 0 <= i < |ys|
        ensures sep !in ys[i]
      {
        if i == 0 {
          assert forall c :: c in xs[0][1..] ==> c in xs[0];
        } else {
          assert ys[i] == xs[i];
        }
      }
      assert j[0] == xs[0][0] != sep by {
        assert xs[0][0] in xs[0];
      }
      SplitJoin(ys, sep);
      assert xs[0] == [xs[0][0]] + xs[0][1..];
      assert xs == [xs[0]] + xs[1..];
    }
  }

  lemma {:induction false} SplitNoSeparator(s: string, sep: char)
    requires sep !in s
    ensures Split(s, sep) == [s]
  {
    if |s| > 0 {
      assert s[0] in s;
      assert forall c :: c in s[1..] ==> c in s;
      SplitNoSeparator(s[1..], sep);
      assert s == [s[0]] + s[1..];
    }
  }
}
