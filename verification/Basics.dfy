/**
 Small shared notions.
 */
module Basics {

  datatype Option<T> = None | Some(value: T)

  ghost predicate NoDup(s: seq<nat>) { forall i: nat, j: nat {:trigger s[i], s[j]} :: i < j < |s| ==> s[i] != s[j] }

  datatype Prot = Prot(read: bool, write: bool, exec: bool)

  datatype Cache = Standard | WriteCombine | NoCache

  lemma {:induction false} TailHas(s: seq<nat>, h: nat)
    requires s != [] && NoDup(s)
    ensures h in s[1..] <==> h in s && h != s[0]
  {
    if h in s && h != s[0] { var i :| 0 <= i < |s| && s[i] == h; assert s[1..][i - 1] == h; }
    if h in s[1..] { var i :| 0 <= i < |s| - 1 && s[1..][i] == h; assert s[i + 1] == h; }
  }

  /** list_node_delete */
  function Delete(s: seq<nat>, x: nat): seq<nat> {
    if s == [] then [] else if s[0] == x then s[1..] else [s[0]] + Delete(s[1..], x)
  }

  lemma {:induction false} DeleteHas(s: seq<nat>, x: nat)
    requires NoDup(s)
    ensures NoDup(Delete(s, x)) && forall h: nat :: h in Delete(s, x) <==> h in s && h != x
    ensures x in s ==> |Delete(s, x)| == |s| - 1
  {
    if s != [] {
      assert NoDup(s[1..]);
      forall h: nat ensures h in s[1..] <==> h in s && h != s[0] { TailHas(s, h); }
      DeleteHas(s[1..], x);
      var t := Delete(s[1..], x);
      assert s[0] !in t;
      assert NoDup([s[0]] + t);
    }
  }
}
