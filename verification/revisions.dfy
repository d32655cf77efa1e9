/** Revision identifiers, child maps and the errors raised while reorganising
    a stack (mozphab/commands/reorganise.py). */
module Revisions {
  import opened Wrappers
  import Text

  /** A revision PHID. Ids are never empty, so Python's truthiness test on an
      id coincides with "is not None". */
  type RevId = s: string | s != [] witness "D"

  /** A stack as a linked list: each revision maps to its child, or to None
      when it has no child. */
  type LList = map<RevId, Option<RevId>>

  /** The failures of the reorganisation logic. */
  datatype StackError =
    | NoHead                        // walk_llist: every key is some key's child
    | MultipleHeads                 // walk_llist: two unreferenced keys
    | DependencyLoop                // walk_llist: the walk revisits a node
    | MultipleChildren(revId: int)  // convert_stackgraph_to_linear
    | KeyLookup(key: RevId)         // a Python KeyError on a missing dict key
    | AssertionFailed               // the final check of stack_transactions
  {
    function Message(): string {
      match this
      case NoHead => "Failed to find head."
      case MultipleHeads => "Multiple heads found."
      case DependencyLoop => "Dependency loop"
      case MultipleChildren(id) => "Revision D" + Text.IntToString(id) + " has multiple children."
      case KeyLookup(key) => "'" + key + "'"
      case AssertionFailed => ""
    }
  }

  /** Python's `dict.get`. */
  function Get(llist: LList, key: RevId): Option<RevId> {
    if key in llist then llist[key] else None
  }

  function Elems(s: seq<RevId>): set<RevId> {
    set x | x in s
  }

  /** Position of the first occurrence of `x` in `s` (`s.index(x)`), or
      `|s|` when absent. */
  function IndexOf(s: seq<RevId>, x: RevId): (i: nat)
    ensures i <= |s|
    ensures x in s ==> i < |s| && s[i] == x && x !in s[..i]
    ensures x !in s ==> i == |s|
  {
    if s == [] then 0 else if s[0] == x then 0
    else
      var i := 1 + IndexOf(s[1..], x);
      assert s[..i] == [s[0]] + s[1..][..i - 1];
      i
  }

  predicate Distinct(s: seq<RevId>) {
    forall i, j :: 0 <= i < j < |s| ==> s[i] != s[j]
  }

  /** Python's `<` on strings: lexicographic by code point. */
  predicate StrLess(a: string, b: string)
    decreases |a|
  {
    if a == [] then b != []
    else if b == [] then false
    else if a[0] != b[0] then a[0] < b[0]
    else StrLess(a[1..], b[1..])
  }

  lemma {:induction false} StrLessAsymmetric(a: string, b: string)
    ensures !(StrLess(a, b) && StrLess(b, a))
    decreases |a|
  {
    if a != [] && b != [] && a[0] == b[0] {
      StrLessAsymmetric(a[1..], b[1..]);
    }
  }

  lemma {:induction false} StrLessTotal(a: string, b: string)
    ensures a == b || StrLess(a, b) || StrLess(b, a)
    decreases |a|
  {
    if a != [] && b != [] && a[0] == b[0] {
      StrLessTotal(a[1..], b[1..]);
      if a[1..] == b[1..] {
        assert a == [a[0]] + a[1..] && b == [b[0]] + b[1..];
      }
    }
  }

  lemma {:induction false} StrLessTransitive(a: string, b: string, c: string)
    requires StrLess(a, b) && StrLess(b, c)
    ensures StrLess(a, c)
    decreases |a|
  {
    if a != [] && b != [] && c != [] && a[0] == b[0] == c[0] {
      StrLessTransitive(a[1..], b[1..], c[1..]);
    }
  }

  /** `m` comes first among `s` when `s` is sorted. */
  predicate IsLeast(m: RevId, s: set<RevId>) {
    m in s && forall x :: x in s && x != m ==> StrLess(m, x)
  }

  lemma LeastExists(s: set<RevId>)
    requires s != {}
    ensures exists m: RevId :: IsLeast(m, s)
    decreases s
  {
    var y :| y in s;
    if s - {y} == {} {
      assert s == {y};
      assert IsLeast(y, s);
    } else {
      LeastExists(s - {y});
      var m: RevId :| IsLeast(m, s - {y});
      StrLessTotal(m, y);
      if StrLess(m, y) {
        assert IsLeast(m, s);
      } else {
        forall x | x in s && x != y
          ensures StrLess(y, x)
        {
          if x != m {
            StrLessTransitive(y, m, x);
          }
        }
        assert IsLeast(y, s);
      }
    }
  }

  lemma LeastUnique(s: set<RevId>)
    ensures forall m1: RevId, m2: RevId :: IsLeast(m1, s) && IsLeast(m2, s) ==> m1 == m2
  {
    forall m1: RevId, m2: RevId | IsLeast(m1, s) && IsLeast(m2, s)
      ensures m1 == m2
    {
      if m1 != m2 {
        StrLessAsymmetric(m1, m2);
      }
    }
  }

  /** The first element of `sorted(s)`. */
  function Least(s: set<RevId>): (m: RevId)
    requires s != {}
    ensures m in s
    ensures forall x :: x in s && x != m ==> StrLess(m, x)
  {
    LeastExists(s);
    LeastUnique(s);
    var m: RevId :| IsLeast(m, s);
    m
  }
}
