/** The addresses of the points a selected point depends on, as the
    dependency overlay computes them (glyph-canvas lines 696-716): every
    dependency whose name does not mention 'anchor', cut after its fourth
    dotted component. */
module Dependencies {

  /** `s.split('.')`: never empty; the parts hold no dot. */
  function Split(s: string): (r: seq<string>)
    ensures |r| >= 1
    ensures forall i :: 0 <= i < |r| ==> '.' !in r[i]
    ensures |r| == Dots(s) + 1
  {
    if s == [] then [[]]
    else if s[0] == '.' then [[]] + Split(s[1..])
    else
      var t := Split(s[1..]);
      [[s[0]] + t[0]] + t[1..]
  }

  /** `parts.join('.')`. */
  function Join(parts: seq<string>): string
  {
    if |parts| == 0 then []
    else if |parts| == 1 then parts[0]
    else parts[0] + "." + Join(parts[1..])
  }

  /** The number of dots in `s`. */
  function Dots(s: string): nat
  {
    if s == [] then 0 else (if s[0] == '.' then 1 else 0) + Dots(s[1..])
  }

  /** `dep.split('.').slice(0, 4).join('.')` (line 709). */
  function Truncate(dep: string): string
  {
    var parts := Split(dep);
    Join(parts[..if |parts| < 4 then |parts| else 4])
  }

  /** `dep.indexOf('anchor') !== -1`. */
  predicate MentionsAnchor(dep: string)
  {
    exists i :: 0 <= i <= |dep| && AnchorAt(dep, i)
  }

  predicate AnchorAt(dep: string, i: int)
  {
    0 <= i && i + 6 <= |dep| && dep[i..i + 6] == "anchor"
  }

  /** The depender addresses drawn for one dependency list (lines 704-714). */
  function DependerAddresses(deps: seq<string>): (r: seq<string>)
    ensures |r| <= |deps|
    ensures forall a :: a in r <==> exists d :: d in deps && !MentionsAnchor(d) && a == Truncate(d)
  {
    if deps == [] then []
    else if MentionsAnchor(deps[0]) then DependerAddresses(deps[1..])
    else [Truncate(deps[0])] + DependerAddresses(deps[1..])
  }

  /** Splitting and joining again gives the string back. */
  lemma {:induction false} JoinSplit(s: string)
    ensures Join(Split(s)) == s
  {
    if s != [] {
      JoinSplit(s[1..]);
      var t := Split(s[1..]);
      if s[0] == '.' {
        assert s == "." + s[1..];
      } else if |t| == 1 {
        assert s == [s[0]] + t[0];
      } else {
        assert Join(t) == t[0] + "." + Join(t[1..]);
        assert s == ([s[0]] + t[0]) + "." + Join(t[1..]);
      }
    }
  }

  /** Joining the first k parts gives a prefix of joining them all. */
  lemma {:induction false} JoinPrefix(parts: seq<string>, k: nat)
    requires 1 <= k <= |parts|
    ensures Join(parts[..k]) <= Join(parts)
    decreases k
  {
    if k > 1 {
      JoinPrefix(parts[1..], k - 1);
      assert parts[..k][1..] == parts[1..][..k - 1];
      assert Join(parts[..k]) == parts[0] + "." + Join(parts[1..][..k - 1]);
    } else {
      assert parts[..1] == [parts[0]];
    }
  }

  /** Joining parts without dots puts one dot between each pair. */
  lemma {:induction false} JoinDots(parts: seq<string>)
    requires |parts| >= 1
    requires forall i :: 0 <= i < |parts| ==> '.' !in parts[i]
    ensures Dots(Join(parts)) == |parts| - 1
    decreases |parts|
  {
    if |parts| > 1 {
      JoinDots(parts[1..]);
      DotsAppend(parts[0] + ".", Join(parts[1..]));
      DotsAppend(parts[0], ".");
      NoDots(parts[0]);
    } else {
      NoDots(parts[0]);
    }
  }

  lemma {:induction false} DotsAppend(a: string, b: string)
    ensures Dots(a + b) == Dots(a) + Dots(b)
    decreases |a|
  {
    if a != [] {
      DotsAppend(a[1..], b);
      assert (a + b)[1..] == a[1..] + b;
    } else {
      assert a + b == b;
    }
  }

  lemma {:induction false} NoDots(s: string)
    requires '.' !in s
    ensures Dots(s) == 0
    decreases |s|
  {
    if s != [] {
      assert '.' !in s[1..] by {
        forall i | 0 <= i < |s[1..]| ensures s[1..][i] != '.' {
          assert s[1..][i] == s[i + 1];
        }
      }
      NoDots(s[1..]);
    }
  }

  /** Joining splits at any part boundary: the first k parts, a dot, the
      rest. */
  lemma {:induction false} JoinAt(parts: seq<string>, k: nat)
    requires 1 <= k < |parts|
    ensures Join(parts) == Join(parts[..k]) + "." + Join(parts[k..])
    decreases k
  {
    if k > 1 {
      JoinAt(parts[1..], k - 1);
      assert parts[..k][1..] == parts[1..][..k - 1];
      assert parts[1..][k - 1..] == parts[k..];
      assert Join(parts[..k]) == parts[0] + "." + Join(parts[1..][..k - 1]);
    } else {
      assert parts[..1] == [parts[0]];
      assert parts[1..] == parts[k..];
    }
  }

  /** The truncated address is a prefix of the dependency with at most three
      dots; a dependency with at most three dots is kept whole, and a longer
      one is cut just before its fourth dot. */
  lemma TruncateIsPrefix(dep: string)
    ensures Truncate(dep) <= dep
    ensures Dots(Truncate(dep)) <= 3
    ensures Dots(dep) <= 3 ==> Truncate(dep) == dep
    ensures Dots(dep) > 3 ==>
      && Dots(Truncate(dep)) == 3
      && |Truncate(dep)| < |dep| && dep[|Truncate(dep)|] == '.'
  {
    var parts := Split(dep);
    var k := if |parts| < 4 then |parts| else 4;
    JoinSplit(dep);
    JoinPrefix(parts, k);
    JoinDots(parts[..k]);
    if Dots(dep) <= 3 {
      assert parts[..k] == parts;
    } else {
      assert k == 4 && k < |parts|;
      JoinAt(parts, k);
      var t := Join(parts[..k]);
      assert t == Truncate(dep);
      assert dep == t + "." + Join(parts[k..]);
      assert dep[|t|] == (t + "." + Join(parts[k..]))[|t|];
    }
  }
}
