/**
 * The `-group-list` option: a comma-separated list of `namespace:email`
 * elements, each naming the namespace whose role binding is kept in step
 * with the directory group `email`.
 */
module GroupList {
  import opened Wrappers
  import opened GoStrings

  /** One accepted element of the group list. */
  datatype Target = Target(namespace: string, email: string)

  /** Why an element of the group list was refused. */
  datatype ElementError =
    | MissingColon(element: string)            // no piece [1]: Go indexes past the end and panics
    | EmptyField(namespace: string, email: string)  // refused with a fatal log line

  /** The element at `index` of the list was refused for `error`. */
  datatype Rejection = Rejection(index: nat, error: ElementError)

  /** The default value of `-group-list`. */
  const DefaultGroupList: string := "default:group1@test.com,kube-system:group2@test.com"

  /** The elements of the group list, in order. */
  function Elements(groupList: string): (elements: seq<string>)
  {
    Split(groupList, ',')
  }

  /**
   * Parses one element: the namespace is the text before the first `:`,
   * the email the text between the first and the second `:`, and anything
   * after a second `:` is ignored.
   */
  function ParseElement(element: string): (r: Result<Target, ElementError>)
    ensures r.Failure? && r.error.MissingColon? <==> ':' !in element
    ensures r.Success? ==>
      && r.value.namespace != "" && r.value.email != ""
      && ':' !in r.value.namespace && ':' !in r.value.email
  {
    var pieces := Split(element, ':');
    SplitCount(element, ':');
    SplitPiecesFree(element, ':');
    if |pieces| < 2 then Failure(MissingColon(element))
    else
      var namespace, email := pieces[0], pieces[1];
      if namespace == "" || email == "" then Failure(EmptyField(namespace, email))
      else Success(Target(namespace, email))
  }

  /** Parses every element in order, stopping at the first one refused. */
  function ParseElements(elements: seq<string>): (r: Result<seq<Target>, Rejection>)
  {
    if elements == [] then Success([])
    else
      match ParseElement(elements[0])
      case Failure(e) => Failure(Rejection(0, e))
      case Success(t) =>
        match ParseElements(elements[1..])
        case Failure(rj) => Failure(Rejection(rj.index + 1, rj.error))
        case Success(ts) => Success([t] + ts)
  }

  /** Parses a whole `-group-list` value. */
  function ParseGroupList(groupList: string): (r: Result<seq<Target>, Rejection>)
  {
    ParseElements(Elements(groupList))
  }

  /**
   * Every `namespace:email` element, with or without further `:`-separated
   * text after the email, parses to exactly that namespace and email.
   */
  lemma AcceptedElement(namespace: string, email: string, tail: string)
    requires namespace != "" && email != ""
    requires ':' !in namespace && ':' !in email
    requires tail == [] || tail[0] == ':'
    ensures ParseElement(namespace + ":" + email + tail) == Success(Target(namespace, email))
  {
    var element := namespace + ":" + email + tail;
    if tail == [] {
      assert element == namespace + [':'] + email;
      SplitAtFirst(namespace, ':', email);
      SplitNoSeparator(email, ':');
    } else {
      assert element == namespace + [':'] + (email + [':'] + tail[1..]);
      SplitAtFirst(namespace, ':', email + [':'] + tail[1..]);
      SplitAtFirst(email, ':', tail[1..]);
    }
  }

  /**
   * An accepted element is its namespace, a `:`, its email, and then either
   * nothing or text that starts with a further `:`.
   */
  lemma {:induction false} AcceptedElementShape(element: string)
    requires ParseElement(element).Success?
    ensures var t := ParseElement(element).value;
      var n := |t.namespace| + 1 + |t.email|;
      && n <= |element|
      && element[..n] == t.namespace + ":" + t.email
      && (n == |element| || element[n] == ':')
  {
    var pieces := Split(element, ':');
    var t := ParseElement(element).value;
    JoinSplit(element, ':');
    var n := |t.namespace| + 1 + |t.email|;
    if |pieces| == 2 {
      assert pieces[1..] == [t.email];
      assert element == t.namespace + [':'] + t.email;
    } else {
      var more := Join(pieces[2..], ':');
      assert pieces[1..][1..] == pieces[2..];
      assert element == t.namespace + [':'] + (t.email + [':'] + more);
      assert element == (t.namespace + ":" + t.email) + ([':'] + more);
    }
  }

  /**
   * An element whose namespace (the text before the first `:`) or email (the
   * text between the first and the second `:`) is empty is refused, and the
   * error carries both fields.
   */
  lemma RejectedEmptyField(namespace: string, email: string, tail: string)
    requires namespace == "" || email == ""
    requires ':' !in namespace && ':' !in email
    requires tail == [] || tail[0] == ':'
    ensures ParseElement(namespace + ":" + email + tail) == Failure(EmptyField(namespace, email))
  {
    var element := namespace + ":" + email + tail;
    if tail == [] {
      assert element == namespace + [':'] + email;
      SplitAtFirst(namespace, ':', email);
      SplitNoSeparator(email, ':');
    } else {
      assert element == namespace + [':'] + (email + [':'] + tail[1..]);
      SplitAtFirst(namespace, ':', email + [':'] + tail[1..]);
      SplitAtFirst(email, ':', tail[1..]);
    }
  }

  /**
   * The list parses exactly when every element does; the targets are the
   * elements' own, in list order.
   */
  lemma {:induction false} ParseElementsAccepted(elements: seq<string>)
    ensures ParseElements(elements).Success? <==>
      forall k :: 0 <= k < |elements| ==> ParseElement(elements[k]).Success?
    ensures ParseElements(elements).Success? ==>
      var ts := ParseElements(elements).value;
      |ts| == |elements| &&
      forall k :: 0 <= k < |elements| ==> ts[k] == ParseElement(elements[k]).value
  {
    if elements != [] {
      ParseElementsAccepted(elements[1..]);
      if ParseElement(elements[0]).Success? && ParseElements(elements[1..]).Success? {
        forall k | 0 <= k < |elements| ensures ParseElement(elements[k]).Success? {
          if k > 0 { assert elements[k] == elements[1..][k - 1]; }
        }
      } else if ParseElement(elements[0]).Success? {
        var k :| 0 <= k < |elements[1..]| && !ParseElement(elements[1..][k]).Success?;
        assert elements[1..][k] == elements[k + 1];
      }
    }
  }

  /**
   * A refused list names the first element refused: every element before it
   * parses, and no later element is looked at.
   */
  lemma {:induction false} ParseElementsRejected(elements: seq<string>)
    requires ParseElements(elements).Failure?
    ensures var rj := ParseElements(elements).error;
      && rj.index < |elements|
      && ParseElement(elements[rj.index]) == Failure(rj.error)
      && forall k :: 0 <= k < rj.index ==> ParseElement(elements[k]).Success?
  {
    if ParseElement(elements[0]).Success? {
      ParseElementsRejected(elements[1..]);
      var rj := ParseElements(elements[1..]).error;
      forall k | 0 < k < rj.index + 1 ensures ParseElement(elements[k]).Success? {
        assert elements[k] == elements[1..][k - 1];
      }
    }
  }

  /**
   * An empty element, which a leading, trailing or doubled comma produces,
   * makes the whole list fail to parse.
   */
  lemma EmptyElementRejected(groupList: string)
    requires "" in Elements(groupList)
    ensures ParseGroupList(groupList).Failure?
  {
    var k :| 0 <= k < |Elements(groupList)| && Elements(groupList)[k] == "";
    ParseElementsAccepted(Elements(groupList));
    assert !ParseElement(Elements(groupList)[k]).Success?;
  }

  /** A list with a stray comma at the start, at the end or doubled is refused. */
  lemma StrayCommaRejected(groupList: string)
    requires |groupList| > 0
    requires || groupList[0] == ','
             || groupList[|groupList| - 1] == ','
             || exists i :: 0 <= i < |groupList| - 1 && groupList[i] == ',' && groupList[i + 1] == ','
    ensures ParseGroupList(groupList).Failure?
  {
    var pieces := Elements(groupList);
    if groupList[0] == ',' {
      LeadingSeparator(groupList, ',');
      assert pieces[0] == "";
    } else if groupList[|groupList| - 1] == ',' {
      TrailingSeparator(groupList, ',');
      assert pieces[|pieces| - 1] == "";
    } else {
      var i :| 0 <= i < |groupList| - 1 && groupList[i] == ',' && groupList[i + 1] == ',';
      DoubledSeparator(groupList, ',', i);
    }
    EmptyElementRejected(groupList);
  }

  /** Splitting and re-joining the list with commas gives back the option value. */
  lemma ElementsRejoin(groupList: string)
    ensures Join(Elements(groupList), ',') == groupList
    ensures |Elements(groupList)| == multiset(groupList)[','] + 1
  {
    JoinSplit(groupList, ',');
    SplitCount(groupList, ',');
  }

  /** The default list names `default` and `kube-system`, in that order. */
  lemma DefaultGroupListTargets(groupList: string)
    requires groupList == DefaultGroupList
    ensures ParseGroupList(groupList) ==
      Success([Target("default", "group1@test.com"), Target("kube-system", "group2@test.com")])
  {
    DefaultGroupListSpelled(groupList);
    TwoTargetList("default", "group1@test.com", "kube-system", "group2@test.com", groupList);
  }

  lemma DefaultGroupListSpelled(groupList: string)
    requires groupList == DefaultGroupList
    ensures groupList == "default" + ":" + "group1@test.com" + "," + "kube-system" + ":" + "group2@test.com"
  {
    var literal := "default" + ":" + "group1@test.com" + "," + "kube-system" + ":" + "group2@test.com";
    assert |literal| == |groupList|;
    forall i | 0 <= i < |literal| ensures literal[i] == groupList[i] {}
  }

  /** A list of two well-formed `namespace:email` elements parses to those two targets, in order. */
  lemma TwoTargetList(ns1: string, email1: string, ns2: string, email2: string, groupList: string)
    requires ns1 != "" && email1 != "" && ns2 != "" && email2 != ""
    requires ':' !in ns1 && ':' !in email1 && ':' !in ns2 && ':' !in email2
    requires ',' !in ns1 && ',' !in email1 && ',' !in ns2 && ',' !in email2
    requires groupList == ns1 + ":" + email1 + "," + ns2 + ":" + email2
    ensures ParseGroupList(groupList) == Success([Target(ns1, email1), Target(ns2, email2)])
  {
    var first, second := ns1 + ":" + email1, ns2 + ":" + email2;
    assert groupList == first + [','] + second;
    TwoElements(first, second);
    AcceptedElement(ns1, email1, "");
    AcceptedElement(ns2, email2, "");
    assert first == ns1 + ":" + email1 + "";
    assert second == ns2 + ":" + email2 + "";
    assert Elements(groupList) == [first, second];
    assert ParseElement(first) == Success(Target(ns1, email1));
    assert ParseElement(second) == Success(Target(ns2, email2));
    assert [first, second][1..] == [second];
    assert [second][1..] == [];
    assert [Target(ns2, email2)] + [] == [Target(ns2, email2)];
    assert ParseElements([second]) == Success([Target(ns2, email2)]);
    assert [Target(ns1, email1)] + [Target(ns2, email2)] == [Target(ns1, email1), Target(ns2, email2)];
    assert ParseGroupList(groupList) == ParseElements([first, second]);
  }

  /** Two comma-free elements joined by one comma split back into those two. */
  lemma TwoElements(first: string, second: string)
    requires ',' !in first && ',' !in second
    ensures Elements(first + [','] + second) == [first, second]
  {
    SplitAtFirst(first, ',', second);
    SplitNoSeparator(second, ',');
  }
}
