/**
 * De-duplication of directory group members (`uniq`): repeated members are
 * dropped, members count as repeated when they have the same email, and the
 * first occurrence of each email is kept, in first-seen order.
 */
module Members {

  /** A directory group member; only `email` decides identity. */
  datatype Member = Member(email: string, id: string)

  /** Some member of `s` has email `e`. */
  predicate HasEmail(s: seq<Member>, e: string)
  {
    exists i :: 0 <= i < |s| && s[i].email == e
  }

  /** No two members of `s` share an email. */
  predicate NoDuplicateEmails(s: seq<Member>)
  {
    forall i, j :: 0 <= i < j < |s| ==> s[i].email != s[j].email
  }

  /** The position of the first member of `s` with email `e`. */
  function FirstIndex(s: seq<Member>, e: string): (i: nat)
    requires HasEmail(s, e)
    ensures i < |s| && s[i].email == e
    ensures forall j :: 0 <= j < i ==> s[j].email != e
  {
    if s[0].email == e then 0
    else
      assert HasEmail(s[1..], e) by {
        var k :| 0 <= k < |s| && s[k].email == e;
        assert s[1..][k - 1] == s[k];
      }
      1 + FirstIndex(s[1..], e)
  }

  /**
   * `s` with every member whose email was already seen dropped. Each member
   * of `s` is looked at in turn and appended unless its email is already in
   * the result.
   */
  function Uniq(s: seq<Member>): (unique: seq<Member>)
  {
    if s == [] then []
    else
      var kept := Uniq(s[..|s| - 1]);
      var m := s[|s| - 1];
      if HasEmail(kept, m.email) then kept else kept + [m]
  }

  /**
   * The loop form of `uniq`: for each member, scan the members kept so far
   * for its email and append it when none matches.
   */
  method UniqMembers(list: seq<Member>) returns (unique: seq<Member>)
    ensures unique == Uniq(list)
    ensures NoDuplicateEmails(unique)
    ensures forall e :: HasEmail(unique, e) <==> HasEmail(list, e)
  {
    unique := [];
    for i := 0 to |list|
      invariant unique == Uniq(list[..i])
    {
      var l := list[i];
      var seen := false;
      var j := 0;
      while j < |unique| && !seen
        invariant 0 <= j <= |unique|
        invariant seen <==> exists k :: 0 <= k < j && unique[k].email == l.email
      {
        seen := unique[j].email == l.email;
        j := j + 1;
      }
      assert seen <==> HasEmail(unique, l.email);
      assert list[..i + 1][..i] == list[..i];
      if !seen {
        unique := unique + [l];
      }
    }
    assert list[..|list|] == list;
    UniqNoDuplicates(list);
    UniqEmails(list);
  }

  /** The result has no two members with the same email. */
  lemma {:induction false} UniqNoDuplicates(s: seq<Member>)
    ensures NoDuplicateEmails(Uniq(s))
  {
    if s != [] {
      UniqNoDuplicates(s[..|s| - 1]);
    }
  }

  /** Exactly the emails of the input appear in the result. */
  lemma {:induction false} UniqEmails(s: seq<Member>)
    ensures forall e :: HasEmail(Uniq(s), e) <==> HasEmail(s, e)
  {
    if s != [] {
      var init := s[..|s| - 1];
      UniqEmails(init);
      var kept := Uniq(init);
      forall e ensures HasEmail(Uniq(s), e) <==> HasEmail(s, e) {
        if HasEmail(s, e) {
          var k :| 0 <= k < |s| && s[k].email == e;
          if k < |s| - 1 {
            assert init[k] == s[k];
            assert HasEmail(kept, e);
            var i :| 0 <= i < |kept| && kept[i].email == e;
            assert Uniq(s)[i] == kept[i];
          } else if !HasEmail(kept, e) {
            assert Uniq(s)[|kept|] == s[k];
          }
        }
        if HasEmail(Uniq(s), e) {
          var i :| 0 <= i < |Uniq(s)| && Uniq(s)[i].email == e;
          if i < |kept| {
            assert Uniq(s)[i] == kept[i];
            assert HasEmail(kept, e);
            var k :| 0 <= k < |init| && init[k].email == e;
            assert s[k] == init[k];
          } else {
            assert s[|s| - 1].email == e;
          }
        }
      }
    }
  }

  /**
   * Each member of the result is the first member of the input with its
   * email, and the result lists them in the order their emails first
   * appear in the input.
   */
  lemma {:induction false} UniqFirstSeenOrder(s: seq<Member>)
    ensures forall k :: 0 <= k < |Uniq(s)| ==>
      HasEmail(s, Uniq(s)[k].email) && Uniq(s)[k] == s[FirstIndex(s, Uniq(s)[k].email)]
    ensures forall k1, k2 :: 0 <= k1 < k2 < |Uniq(s)| ==>
      HasEmail(s, Uniq(s)[k1].email) && HasEmail(s, Uniq(s)[k2].email) &&
      FirstIndex(s, Uniq(s)[k1].email) < FirstIndex(s, Uniq(s)[k2].email)
  {
    if s != [] {
      var init := s[..|s| - 1];
      var m := s[|s| - 1];
      UniqFirstSeenOrder(init);
      UniqEmails(init);
      var kept := Uniq(init);
      forall k | 0 <= k < |kept|
        ensures HasEmail(s, kept[k].email) && kept[k] == s[FirstIndex(s, kept[k].email)]
        ensures FirstIndex(s, kept[k].email) == FirstIndex(init, kept[k].email)
      {
        FirstIndexPrefix(init, m, kept[k].email);
        assert s == init + [m];
      }
      if !HasEmail(kept, m.email) {
        assert !HasEmail(init, m.email);
        FirstIndexNew(init, m);
        assert s == init + [m];
      }
    }
  }

  /** Appending a member does not move the first position of an email already present. */
  lemma FirstIndexPrefix(s: seq<Member>, m: Member, e: string)
    requires HasEmail(s, e)
    ensures HasEmail(s + [m], e) && FirstIndex(s + [m], e) == FirstIndex(s, e)
  {
    var i := FirstIndex(s, e);
    assert (s + [m])[i] == s[i];
    FirstIndexUnique(s + [m], e, i);
  }

  /** An appended member with a new email is that email's first position. */
  lemma FirstIndexNew(s: seq<Member>, m: Member)
    requires !HasEmail(s, m.email)
    ensures HasEmail(s + [m], m.email) && FirstIndex(s + [m], m.email) == |s|
  {
    assert (s + [m])[|s|] == m;
    FirstIndexUnique(s + [m], m.email, |s|);
  }

  /** The first position of an email is the only position with that email and none before it. */
  lemma FirstIndexUnique(s: seq<Member>, e: string, i: nat)
    requires i < |s| && s[i].email == e
    requires forall j :: 0 <= j < i ==> s[j].email != e
    ensures HasEmail(s, e) && FirstIndex(s, e) == i
  {
  }

  /** The result is never longer than the input. */
  lemma {:induction false} UniqLength(s: seq<Member>)
    ensures |Uniq(s)| <= |s|
  {
    if s != [] {
      UniqLength(s[..|s| - 1]);
    }
  }

  /** A list without repeated emails is left as it is. */
  lemma {:induction false} UniqOfUnique(s: seq<Member>)
    requires NoDuplicateEmails(s)
    ensures Uniq(s) == s
  {
    if s != [] {
      var init := s[..|s| - 1];
      UniqOfUnique(init);
      assert init + [s[|s| - 1]] == s;
    }
  }

  /** De-duplicating twice is the same as de-duplicating once. */
  lemma {:induction false} UniqIdempotent(s: seq<Member>)
    ensures Uniq(Uniq(s)) == Uniq(s)
  {
    UniqNoDuplicates(s);
    UniqOfUnique(Uniq(s));
  }

  /** A non-empty list whose members all share one email keeps only its first member. */
  lemma {:induction false} UniqSingleEmail(s: seq<Member>)
    requires |s| > 0
    requires forall i :: 0 <= i < |s| ==> s[i].email == s[0].email
    ensures Uniq(s) == [s[0]]
  {
    if |s| > 1 {
      var init := s[..|s| - 1];
      UniqSingleEmail(init);
      assert Uniq(init)[0].email == s[|s| - 1].email;
    }
  }

  /**
   * The list `m1, m2, m1, m3, m2` of three distinct emails de-duplicates to
   * `m1, m2, m3`: three members, in first-seen order.
   */
  lemma UniqRepeatedMembers(m1: Member, m2: Member, m3: Member)
    requires m1.email != m2.email && m1.email != m3.email && m2.email != m3.email
    ensures Uniq([m1, m2, m1, m3, m2]) == [m1, m2, m3]
  {
    var s := [m1, m2, m1, m3, m2];
    assert s[..1] == [m1] && [m1][..0] == [];
    assert Uniq([m1]) == [m1];
    assert s[..2] == [m1, m2] && [m1, m2][..1] == [m1];
    assert !HasEmail([m1], m2.email);
    assert Uniq([m1, m2]) == [m1, m2];
    assert s[..3] == [m1, m2, m1] && [m1, m2, m1][..2] == [m1, m2];
    assert HasEmail([m1, m2], m1.email);
    assert Uniq(s[..3]) == [m1, m2];
    assert s[..4] == s[..3] + [m3] && s[..4][..3] == s[..3];
    assert !HasEmail([m1, m2], m3.email);
    assert Uniq(s[..4]) == [m1, m2, m3];
    assert s[..|s| - 1] == s[..4];
    assert [m1, m2, m3][1] == m2;
  }
}
