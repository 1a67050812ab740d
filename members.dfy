/** Operations on a group's listOfUsers: the indexOf/splice removal that
    deleteUser applies to every group, and the list-union merge of
    patchGroup. */
module Members {
  import opened Records

  predicate NoDuplicates(s: seq<int>) {
    forall i, j :: 0 <= i < j < |s| ==> s[i] != s[j]
  }

  /** Array.prototype.indexOf with strict equality: the first position of
      x, or -1. */
  function IndexOf(s: seq<int>, x: int): (r: int)
    ensures -1 <= r < |s|
    ensures r == -1 <==> x !in s
    ensures r != -1 ==> s[r] == x && x !in s[..r]
  {
    if |s| == 0 then -1
    else if s[0] == x then 0
    else
      var p := IndexOf(s[1..], x);
      assert s == [s[0]] + s[1..];
      if p == -1 then -1
      else
        assert s[..p + 1] == [s[0]] + s[1..][..p];
        p + 1
  }

  /** indexOf followed by splice(position, 1) when the position is found:
      the first occurrence of x goes, everything else stays in order. */
  function RemoveFirst(s: seq<int>, x: int): (r: seq<int>)
    ensures x !in s ==> r == s
    ensures x in s ==> exists p :: 0 <= p < |s| && s[p] == x && x !in s[..p] && r == s[..p] + s[p + 1..]
    ensures x in s ==> |r| == |s| - 1 && multiset(r) == multiset(s) - multiset{x}
  {
    var p := IndexOf(s, x);
    if p == -1 then s
    else
      assert s == s[..p] + [x] + s[p + 1..];
      s[..p] + s[p + 1..]
  }

  /** A list without duplicates loses every trace of x. */
  lemma RemoveFirstClears(s: seq<int>, x: int)
    requires NoDuplicates(s)
    ensures x !in RemoveFirst(s, x)
    ensures NoDuplicates(RemoveFirst(s, x))
  {
    if x in s {
      var p := IndexOf(s, x);
      var r := s[..p] + s[p + 1..];
      assert forall i :: 0 <= i < |r| ==> r[i] == s[if i < p then i else i + 1];
    }
  }

  /** Only the first occurrence goes: a repeated member survives the
      removal once. */
  lemma RepeatedMemberSurvives()
    ensures RemoveFirst([3, 3], 3) == [3]
  {
    assert [3, 3][..0] + [3, 3][1..] == [3];
  }

  /** A group with its list after the removal of uid. */
  function Unlisted(g: Group, uid: int): Group {
    g.(listOfUsers := RemoveFirst(g.listOfUsers, uid))
  }

  /** Every group with its list after the removal of uid. */
  function WithoutMember(groups: seq<Group>, uid: int): seq<Group> {
    seq(|groups|, k requires 0 <= k < |groups| => Unlisted(groups[k], uid))
  }

  /** Some group lists uid. */
  ghost predicate Listed(groups: seq<Group>, uid: int) {
    exists i :: 0 <= i < |groups| && uid in groups[i].listOfUsers
  }

  /** The removal changes the groups document exactly when some group
      lists uid; otherwise groups.json is left as it was. */
  lemma WithoutMemberChanges(groups: seq<Group>, uid: int)
    ensures WithoutMember(groups, uid) != groups <==> Listed(groups, uid)
  {
    var w := WithoutMember(groups, uid);
    if Listed(groups, uid) {
      var k :| 0 <= k < |groups| && uid in groups[k].listOfUsers;
      assert |w[k].listOfUsers| < |groups[k].listOfUsers|;
    } else {
      assert forall k :: 0 <= k < |groups| ==> w[k] == groups[k];
    }
  }

  /** The body of the cleanup loop for one group: indexOf, then splice
      when the id is found. */
  method DropFromGroup(g: Group, uid: int) returns (out: Group, changed: bool)
    ensures out == Unlisted(g, uid)
    ensures changed <==> uid in g.listOfUsers
  {
    var position := IndexOf(g.listOfUsers, uid);
    changed := position != -1;
    if changed {
      out := g.(listOfUsers := g.listOfUsers[..position] + g.listOfUsers[position + 1..]);
    } else {
      out := g;
    }
  }

  /** The cleanup loop of deleteUser over groups.json: each list loses its
      first occurrence of uid; rewrite records whether any list changed. */
  method RemoveMember(groups: seq<Group>, uid: int) returns (out: seq<Group>, rewrite: bool)
    ensures out == WithoutMember(groups, uid)
    ensures rewrite <==> Listed(groups, uid)
    ensures rewrite <==> out != groups
  {
    ghost var cleaned := WithoutMember(groups, uid);
    ghost var hit := -1;
    out, rewrite := groups, false;
    for i := 0 to |groups|
      invariant |out| == |groups|
      invariant forall k :: 0 <= k < i ==> out[k] == cleaned[k]
      invariant forall k :: i <= k < |groups| ==> out[k] == groups[k]
      invariant -1 <= hit < i && (rewrite <==> hit != -1)
      invariant rewrite ==> uid in groups[hit].listOfUsers
      invariant !rewrite ==> forall k :: 0 <= k < i ==> uid !in groups[k].listOfUsers
    {
      var g, changed := DropFromGroup(out[i], uid);
      out := out[i := g];
      if changed {
        rewrite, hit := true, i;
      }
    }
    assert out == cleaned;
    WithoutMemberChanges(groups, uid);
  }

  /** One step of the patchGroup merge: push x unless the list has it. */
  function AddMember(l: seq<int>, x: int): seq<int> {
    if x in l then l else l + [x]
  }

  /** The list after the merge loop has taken every incoming id in turn. */
  function Merge(l: seq<int>, xs: seq<int>): seq<int>
    decreases |xs|
  {
    if |xs| == 0 then l else AddMember(Merge(l, xs[..|xs| - 1]), xs[|xs| - 1])
  }

  /** The stored list is a prefix of the merged one. */
  lemma {:induction false} MergeExtends(l: seq<int>, xs: seq<int>)
    ensures |l| <= |Merge(l, xs)| && Merge(l, xs)[..|l|] == l
    decreases |xs|
  {
    if |xs| > 0 {
      MergeExtends(l, xs[..|xs| - 1]);
    }
  }

  /** The merged list holds exactly the stored and the incoming ids. */
  lemma {:induction false} MergeElements(l: seq<int>, xs: seq<int>)
    ensures forall y :: y in Merge(l, xs) <==> y in l || y in xs
    decreases |xs|
  {
    if |xs| > 0 {
      var front := xs[..|xs| - 1];
      MergeElements(l, front);
      assert xs == front + [xs[|xs| - 1]];
    }
  }

  /** Whatever the merge appends was in neither the stored list nor
      earlier in the appended part. */
  lemma {:induction false} MergeAppendsOnlyNew(l: seq<int>, xs: seq<int>)
    ensures forall k :: |l| <= k < |Merge(l, xs)| ==> Merge(l, xs)[k] !in Merge(l, xs)[..k]
    decreases |xs|
  {
    if |xs| > 0 {
      var front := xs[..|xs| - 1];
      MergeAppendsOnlyNew(l, front);
      MergeExtends(l, front);
      var m := Merge(l, front);
      var x := xs[|xs| - 1];
      if x !in m {
        assert Merge(l, xs) == m + [x];
        assert (m + [x])[..|m|] == m;
        forall k | |l| <= k < |m| ensures (m + [x])[..k] == m[..k] {}
      }
    }
  }

  /** A list without duplicates stays without duplicates. */
  lemma MergeKeepsNoDuplicates(l: seq<int>, xs: seq<int>)
    ensures NoDuplicates(l) ==> NoDuplicates(Merge(l, xs))
  {
    if NoDuplicates(l) {
      MergeExtends(l, xs);
      MergeAppendsOnlyNew(l, xs);
      var m := Merge(l, xs);
      forall i, j | 0 <= i < j < |m| ensures m[i] != m[j] {
        if j < |l| {
          assert m[i] == l[i] && m[j] == l[j];
        } else {
          assert m[i] in m[..j];
        }
      }
    }
  }

  /** Merging ids that are all present changes nothing. */
  lemma {:induction false} MergeIdle(l: seq<int>, xs: seq<int>)
    requires forall x :: x in xs ==> x in l
    ensures Merge(l, xs) == l
    decreases |xs|
  {
    if |xs| > 0 {
      var front := xs[..|xs| - 1];
      assert forall x :: x in front ==> x in xs;
      MergeIdle(l, front);
    }
  }

  /** Applying the same incoming list twice gives the result of once. */
  lemma MergeIdempotent(l: seq<int>, xs: seq<int>)
    ensures Merge(Merge(l, xs), xs) == Merge(l, xs)
  {
    MergeElements(l, xs);
    MergeIdle(Merge(l, xs), xs);
  }

  /** The nested loops of patchGroup: for each incoming id, scan the
      current list and push the id when the scan does not find it. */
  method MergeMembers(l: seq<int>, incoming: seq<int>) returns (m: seq<int>)
    ensures m == Merge(l, incoming)
    ensures |l| <= |m| && m[..|l|] == l
    ensures forall x :: x in incoming ==> x in m
    ensures forall y :: y in m ==> y in l || y in incoming
  {
    m := l;
    for i := 0 to |incoming|
      invariant m == Merge(l, incoming[..i])
    {
      var val := incoming[i];
      var missing := true;
      var j := 0;
      while j < |m|
        invariant 0 <= j <= |m|
        invariant missing && val !in m[..j]
      {
        if val == m[j] {
          missing := false;
          break;
        }
        j := j + 1;
      }
      assert missing <==> val !in m by {
        if missing {
          assert m[..j] == m;
        }
      }
      if missing {
        m := m + [val];
      }
      assert incoming[..i + 1][..i] == incoming[..i];
    }
    assert incoming[..|incoming|] == incoming;
    MergeExtends(l, incoming);
    MergeElements(l, incoming);
  }
}
