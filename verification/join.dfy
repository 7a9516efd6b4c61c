/** `Array.prototype.join(",")` on string lists, and when it loses no information. */
module ArrayJoin {

  const Comma: char := ','

  /** The elements of `xs` separated by commas: `[]` gives `""`, `[x]` gives `x`. */
  function Join(xs: seq<string>): (r: string)
  {
    if |xs| == 0 then ""
    else if |xs| == 1 then xs[0]
    else xs[0] + [Comma] + Join(xs[1..])
  }

  /** A string that survives a join-and-split intact: non-empty and comma-free. */
  predicate Word(s: string)
  {
    |s| > 0 && Comma !in s
  }

  predicate AllWords(xs: seq<string>)
  {
    forall i :: 0 <= i < |xs| ==> Word(xs[i])
  }

  /** The joined string begins with the first element, followed by a comma when more follow. */
  lemma JoinStartsWithHead(xs: seq<string>)
    requires |xs| > 0
    ensures |Join(xs)| >= |xs[0]|
    ensures Join(xs)[..|xs[0]|] == xs[0]
    ensures |xs| == 1 <==> |Join(xs)| == |xs[0]|
    ensures |xs| > 1 ==> Join(xs)[|xs[0]|] == Comma
    ensures |xs| > 1 ==> Join(xs)[|xs[0]| + 1..] == Join(xs[1..])
  {
  }

  /** Joining lists of words is injective: equal joined strings come from equal lists.
      Without the `Word` condition it is not: `[".a,.b"]` and `[".a", ".b"]` join alike,
      and so do `[]` and `[""]`. */
  lemma {:induction false} JoinInjective(a: seq<string>, b: seq<string>)
    requires AllWords(a) && AllWords(b)
    requires Join(a) == Join(b)
    ensures a == b
  {
    if |a| == 0 || |b| == 0 {
      if |a| > 0 {
        JoinStartsWithHead(a);
      } else if |b| > 0 {
        JoinStartsWithHead(b);
      }
    } else {
      JoinStartsWithHead(a);
      JoinStartsWithHead(b);
      assert a[0] == b[0];
      if |a| > 1 && |b| > 1 {
        JoinInjective(a[1..], b[1..]);
        assert a == [a[0]] + a[1..];
        assert b == [b[0]] + b[1..];
      }
    }
  }
}
