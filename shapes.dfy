/** The shapes of the data the three rule engines work on, and the few Python
    list and string operations they rely on, stated once for all of them. */
module Shapes {

  /** Python's `None` or a value. */
  datatype Option<+T> = None | Some(value: T) {
    function GetOr(default: T): T {
      if Some? then value else default
    }
  }

  /** A value, or the reason a run stopped. */
  datatype Result<+T, +E> = Success(value: T) | Failure(error: E)

  /** A field that holds one string or a list of strings, as XML-derived
      dictionaries and device objects do. */
  datatype Value = Single(s: string) | List(items: seq<string>)

  /** The `if not isinstance(x, list): x = [x]` normalisation. */
  function AsList(v: Value): seq<string> {
    match v
    case Single(s) => [s]
    case List(items) => items
  }

  // ---------------------------------------------------------------------------
  // Python list operations

  /** `s.remove(x)`: drops the first occurrence of `x`; None where Python
      raises ValueError because `x` is absent. */
  function RemoveFirst<T(==)>(s: seq<T>, x: T): (r: Option<seq<T>>)
    ensures r.Some? <==> x in s
  {
    if s == [] then None
    else if s[0] == x then Some(s[1..])
    else
      match RemoveFirst(s[1..], x)
      case None => None
      case Some(r) => Some([s[0]] + r)
  }

  /** What `s.remove(x)` leaves: one occurrence of `x` fewer, nothing else changed. */
  lemma {:induction false} RemoveFirstCount<T>(s: seq<T>, x: T)
    requires x in s
    ensures multiset(RemoveFirst(s, x).value) == multiset(s) - multiset{x}
  {
    assert s == [s[0]] + s[1..];
    if s[0] != x {
      RemoveFirstCount(s[1..], x);
    }
  }

  /** `(a + b) + c` regrouped as `a + (b + c)`, each part named. */
  lemma Regroup<T>(x: seq<T>, ab: seq<T>, a: seq<T>, b: seq<T>, bc: seq<T>, c: seq<T>)
    requires x == ab + c && ab == a + b && bc == b + c
    ensures x == a + bc
  {
  }

  /** `if x in s: s.remove(x)`. */
  function RemoveIfPresent<T(==)>(s: seq<T>, x: T): seq<T> {
    match RemoveFirst(s, x)
    case Some(r) => r
    case None => s
  }

  /** `if x not in s: s.append(x)`. */
  function AppendMissing<T(==)>(s: seq<T>, x: T): seq<T> {
    if x in s then s else s + [x]
  }

  /** Removing `x` from `k + s`, where `x` heads `s` and is absent from `k`,
      removes exactly that head. */
  lemma {:induction false} RemoveFirstAt<T>(k: seq<T>, s: seq<T>, x: T)
    requires x !in k && s != [] && s[0] == x
    ensures RemoveFirst(k + s, x) == Some(k + s[1..])
  {
    if k == [] {
      assert k + s == s;
      assert RemoveFirst(s, x) == Some(s[1..]) && k + s[1..] == s[1..];
    } else {
      var t := k + s;
      assert k[0] in k;
      assert t[0] == k[0] && k[0] != x;
      assert t[1..] == k[1..] + s;
      RemoveFirstAt(k[1..], s, x);
      assert RemoveFirst(t, x) == Some([t[0]] + (k[1..] + s[1..]));
      assert [k[0]] + (k[1..] + s[1..]) == k + s[1..];
    }
  }

  /** Removing and then appending only when absent never makes `y` occur
      more often than once or than it did before. */
  lemma SwapKeepsAtMostOnce<T>(s: seq<T>, x: T, y: T)
    ensures var r := AppendMissing(RemoveIfPresent(s, x), y);
            y in r && multiset(r)[y] <= if multiset(s)[y] <= 1 then 1 else multiset(s)[y]
  {
    var m := RemoveIfPresent(s, x);
    if x in s {
      RemoveFirstCount(s, x);
    }
    assert multiset(m)[y] <= multiset(s)[y];
    if y !in m {
      assert multiset(m + [y]) == multiset(m) + multiset{y};
    }
  }

  // ---------------------------------------------------------------------------
  // Python string operations

  /** Python's `sub in s` on strings. */
  predicate IsSubstring(sub: string, s: string) {
    sub <= s || (s != [] && IsSubstring(sub, s[1..]))
  }

  /** Python's `s.endswith(suffix)`. */
  predicate EndsWith(s: string, suffix: string) {
    |suffix| <= |s| && s[|s| - |suffix|..] == suffix
  }

  /** The characters Python's argument-less `str.split()` separates on. */
  const WhiteSpace: set<char> := {
    ' ', '\t', '\n', '\r', '\U{000B}', '\U{000C}', '\U{001C}', '\U{001D}',
    '\U{001E}', '\U{001F}', '\U{0085}', '\U{00A0}', '\U{1680}', '\U{2000}',
    '\U{2001}', '\U{2002}', '\U{2003}', '\U{2004}', '\U{2005}', '\U{2006}',
    '\U{2007}', '\U{2008}', '\U{2009}', '\U{200A}', '\U{2028}', '\U{2029}',
    '\U{202F}', '\U{205F}', '\U{3000}'
  }

  /** Python's `s.split()`: the maximal runs of non-whitespace, in order. */
  function SplitWs(s: string): seq<string> {
    SplitFrom(s, "")
  }

  /** The split of `s` when `word` is the run already read before it. */
  function SplitFrom(s: string, word: string): seq<string>
    decreases |s|
  {
    if s == [] then (if word == "" then [] else [word])
    else if s[0] in WhiteSpace then (if word == "" then [] else [word]) + SplitFrom(s[1..], "")
    else SplitFrom(s[1..], word + [s[0]])
  }

  /** A non-empty name without whitespace splits into itself alone. */
  lemma {:induction false} SplitWsPlainName(s: string)
    requires s != ""
    requires forall i :: 0 <= i < |s| ==> s[i] !in WhiteSpace
    ensures SplitWs(s) == [s]
  {
    assert "" + s == s;
    SplitFromPlain(s, "");
  }

  lemma {:induction false} SplitFromPlain(s: string, word: string)
    requires word + s != ""
    requires forall i :: 0 <= i < |s| ==> s[i] !in WhiteSpace
    ensures SplitFrom(s, word) == [word + s]
    decreases |s|
  {
    if s == [] {
      assert word + s == word;
    } else {
      assert s[0] !in WhiteSpace;
      assert (word + [s[0]]) + s[1..] == word + s;
      forall i | 0 <= i < |s[1..]| ensures s[1..][i] !in WhiteSpace {
        assert s[1..][i] == s[i + 1];
      }
      SplitFromPlain(s[1..], word + [s[0]]);
    }
  }
}
