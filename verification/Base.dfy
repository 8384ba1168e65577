/** Vocabulary shared by every module: options, time units, finite counting and fields joined with bars. */
module Base {

  datatype Option<+T> = None | Some(value: T)

  // Instants and durations are integers in nanoseconds, as in Go's time package.
  const MILLISECOND := 1_000_000
  const SECOND := 1_000_000_000

  /** Everything but the last element of a nonempty sequence. */
  function Init<T>(xs: seq<T>): seq<T>
    requires xs != []
  {
    xs[..|xs| - 1]
  }

  function Last<T>(xs: seq<T>): T
    requires xs != []
  {
    xs[|xs| - 1]
  }

  /** The elements of `xs` at the positions marked true in `keep`, in order. */
  function Select<T>(xs: seq<T>, keep: seq<bool>): (kept: seq<T>)
    requires |xs| == |keep|
    ensures |kept| <= |xs|
  {
    if xs == [] then []
    else Select(Init(xs), Init(keep)) + (if Last(keep) then [Last(xs)] else [])
  }

  /** A set covered by the image of another one is no larger. */
  lemma {:induction false} ImageIsNoLarger<A, B>(domain: set<A>, f: A -> B, image: set<B>)
    requires forall b <- image :: exists a <- domain :: f(a) == b
    ensures |image| <= |domain|
    decreases domain
  {
    if domain != {} {
      var a :| a in domain;
      var rest := image - {f(a)};
      ImageIsNoLarger(domain - {a}, f, rest);
      assert |domain| == |domain - {a}| + 1;
      assert image <= rest + {f(a)};
      SubsetIsNoLarger(image, rest + {f(a)});
    } else {
      assert image == {};
    }
  }

  lemma {:induction false} SubsetIsNoLarger<A>(small: set<A>, large: set<A>)
    requires small <= large
    ensures |small| <= |large|
  {
    assert large == small + (large - small);
  }

  // ---- Fields joined with bars ----

  predicate BarFree(s: string) {
    '|' !in s
  }

  /** A bar-free field can be read back off the front. */
  lemma {:induction false} FirstBar(a: string, b: string, x: string, y: string)
    requires BarFree(a) && BarFree(b) && a + "|" + x == b + "|" + y
    ensures a == b && x == y
    decreases |a|
  {
    var s, t := a + "|" + x, b + "|" + y;
    assert a != "" ==> s[0] == a[0];
    assert b != "" ==> t[0] == b[0];
    if a == "" && b == "" {
      assert s[1..] == x && t[1..] == y;
    } else if a != "" && b != "" {
      assert s[1..] == a[1..] + "|" + x && t[1..] == b[1..] + "|" + y;
      FirstBar(a[1..], b[1..], x, y);
      assert a == [a[0]] + a[1..] && b == [b[0]] + b[1..];
    }
  }

  lemma FirstBarSplit(s: string) returns (p: string, q: string)
    requires !BarFree(s)
    ensures s == p + "|" + q
  {
    var i :| 0 <= i < |s| && s[i] == '|';
    p, q := s[..i], s[i + 1..];
  }
}
