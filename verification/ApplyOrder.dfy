/** The order in which the objects of a manifest are applied. */
module ApplyOrder {
  import opened Objects
  import opened Permutations

  /** `defaultObjectOrder`. */
  function Score(o: Object): int {
    var gk := o.group + "/" + o.kind;
    if IsDefinition(o) then -1000
    else if gk == "/ServiceAccount" || gk == "rbac.authorization.k8s.io/ClusterRole" then 1
    else if gk == "rbac.authorization.k8s.io/ClusterRoleBinding" then 2
    else if gk == "/ConfigMap" || gk == "/Secrets" then 100
    else if gk == "extensions/Deployment" || gk == "app/Deployment" then 1000
    else if gk == "autoscaling/HorizontalPodAutoscaler" then 1001
    else if gk == "/Service" then 10000
    else 1000
  }

  /** The order of Go strings. */
  predicate StringLess(s: string, t: string) {
    t != "" && (s == "" || s[0] < t[0] || (s[0] == t[0] && StringLess(s[1..], t[1..])))
  }

  /** The comparator of `Sort`, for any way to score objects. */
  predicate Less(score: Object -> int, x: Object, y: Object) {
    || score(x) < score(y)
    || (score(x) == score(y) && StringLess(x.group, y.group))
    || (score(x) == score(y) && x.group == y.group && StringLess(x.kind, y.kind))
    || (score(x) == score(y) && x.group == y.group && x.kind == y.kind && StringLess(x.name, y.name))
  }

  lemma {:induction false} StringsCompare(s: string, t: string)
    ensures !(StringLess(s, t) && StringLess(t, s))
    ensures !StringLess(s, t) && !StringLess(t, s) <==> s == t
    decreases |s|
  {
    if s != "" && t != "" && s[0] == t[0] {
      StringsCompare(s[1..], t[1..]);
      assert s == [s[0]] + s[1..] && t == [t[0]] + t[1..];
    }
  }

  lemma {:induction false} StringLessTransitive(s: string, t: string, u: string)
    requires StringLess(s, t) && StringLess(t, u)
    ensures StringLess(s, u)
    decreases |s|
  {
    if s != "" && s[0] == t[0] == u[0] {
      StringLessTransitive(s[1..], t[1..], u[1..]);
    }
  }

  /** Objects that the comparator cannot tell apart. */
  predicate Tied(score: Object -> int, x: Object, y: Object) {
    score(x) == score(y) && x.group == y.group && x.kind == y.kind && x.name == y.name
  }

  /** The comparator is a strict weak order, the ties of which are exactly the objects with the same key. */
  lemma LessIsStrictWeakOrder(score: Object -> int, x: Object, y: Object, z: Object)
    ensures !Less(score, x, x)
    ensures Less(score, x, y) && Less(score, y, z) ==> Less(score, x, z)
    ensures !Less(score, x, y) && !Less(score, y, z) ==> !Less(score, x, z)
    ensures !Less(score, x, y) && !Less(score, y, x) <==> Tied(score, x, y)
  {
    LessIsStrict(score, x, y);
    LessIsStrict(score, x, z);
    LessIsStrict(score, y, z);
    LessIsStrict(score, x, x);
    if Less(score, x, y) && Less(score, y, z) {
      LessIsTransitive(score, x, y, z);
    }
    if !Less(score, x, y) && !Less(score, y, z) && Less(score, x, z) {
      if Less(score, z, y) {
        LessIsTransitive(score, x, z, y);
      }
    }
  }

  lemma LessIsStrict(score: Object -> int, x: Object, y: Object)
    ensures !(Less(score, x, y) && Less(score, y, x))
    ensures !Less(score, x, y) && !Less(score, y, x) <==> Tied(score, x, y)
  {
    StringsCompare(x.group, y.group);
    StringsCompare(x.kind, y.kind);
    StringsCompare(x.name, y.name);
  }

  lemma LessIsTransitive(score: Object -> int, x: Object, y: Object, z: Object)
    requires Less(score, x, y) && Less(score, y, z)
    ensures Less(score, x, z)
  {
    if StringLess(x.group, y.group) && StringLess(y.group, z.group) {
      StringLessTransitive(x.group, y.group, z.group);
    }
    if StringLess(x.kind, y.kind) && StringLess(y.kind, z.kind) {
      StringLessTransitive(x.kind, y.kind, z.kind);
    }
    if StringLess(x.name, y.name) && StringLess(y.name, z.name) {
      StringLessTransitive(x.name, y.name, z.name);
    }
  }

  /** What sorting by the comparator establishes. */
  ghost predicate Sorted(score: Object -> int, xs: seq<Object>) {
    forall i, j | 0 <= i < j < |xs| :: !Less(score, xs[j], xs[i])
  }

  ghost predicate NoTies(score: Object -> int, xs: seq<Object>) {
    forall i, j | 0 <= i < j < |xs| :: xs[i] == xs[j] || !Tied(score, xs[i], xs[j])
  }

  /** Sorting gives only one list exactly if no two different objects have the same score, group, kind and name. */
  lemma SortIsCanonical(score: Object -> int, xs: seq<Object>)
    requires Sorted(score, xs)
    ensures NoTies(score, xs) <==> forall ys | multiset(ys) == multiset(xs) && Sorted(score, ys) :: ys == xs
  {
    if NoTies(score, xs) {
      forall ys | multiset(ys) == multiset(xs) && Sorted(score, ys)
        ensures ys == xs
      {
        SortedAgree(score, xs, ys);
      }
    } else {
      var i, j :| 0 <= i < j < |xs| && xs[i] != xs[j] && Tied(score, xs[i], xs[j]);
      var ys := xs[i := xs[j]][j := xs[i]];
      SwapTied(score, xs, i, j);
      assert ys[i] != xs[i];
    }
  }

  lemma {:induction false} SortedAgree(score: Object -> int, xs: seq<Object>, ys: seq<Object>)
    requires Sorted(score, xs) && Sorted(score, ys) && NoTies(score, xs) && multiset(xs) == multiset(ys)
    ensures xs == ys
    decreases |xs|
  {
    SameMembers(xs, ys);
    if xs != [] {
      FirstIsLeast(score, xs, ys);
      assert xs == [xs[0]] + xs[1..] && ys == [ys[0]] + ys[1..];
      assert multiset(xs[1..]) == multiset(xs) - multiset{xs[0]};
      assert multiset(ys[1..]) == multiset(ys) - multiset{ys[0]};
      SortedAgree(score, xs[1..], ys[1..]);
    }
  }

  lemma FirstIsLeast(score: Object -> int, xs: seq<Object>, ys: seq<Object>)
    requires Sorted(score, xs) && Sorted(score, ys) && NoTies(score, xs) && multiset(xs) == multiset(ys)
    requires xs != [] && ys != []
    ensures xs[0] == ys[0]
  {
    SameMembers(xs, ys);
    assert xs[0] in ys && ys[0] in xs;
    var i :| 0 <= i < |ys| && ys[i] == xs[0];
    var j :| 0 <= j < |xs| && xs[j] == ys[0];
    LessIsStrict(score, xs[0], ys[0]);
    assert !Less(score, ys[0], xs[0]) && !Less(score, xs[0], ys[0]);
  }

  lemma SwapTied(score: Object -> int, xs: seq<Object>, i: nat, j: nat)
    requires Sorted(score, xs) && i < j < |xs| && Tied(score, xs[i], xs[j])
    ensures var ys := xs[i := xs[j]][j := xs[i]]; multiset(ys) == multiset(xs) && Sorted(score, ys)
  {
    var ys := xs[i := xs[j]][j := xs[i]];
    forall p, q | 0 <= p < q < |ys|
      ensures !Less(score, ys[q], ys[p])
    {
      assert Tied(score, ys[p], xs[p]) && Tied(score, ys[q], xs[q]);
    }
  }

  predicate IsDefinition(o: Object) {
    o.group + "/" + o.kind == "apiextensions.k8s.io/CustomResourceDefinition"
  }

  /** Custom resource definitions come first: they are a prefix of the sorted list. */
  lemma DefinitionsFirst(xs: seq<Object>) returns (n: nat)
    requires Sorted(Score, xs)
    ensures n <= |xs| && forall i | 0 <= i < |xs| :: i < n <==> IsDefinition(xs[i])
  {
    n := 0;
    while n < |xs| && IsDefinition(xs[n])
      invariant n <= |xs| && forall i | 0 <= i < n :: IsDefinition(xs[i])
    {
      n := n + 1;
    }
    forall i | n <= i < |xs|
      ensures !IsDefinition(xs[i])
    {
      assert i > n ==> !Less(Score, xs[i], xs[n]);
    }
  }

  // ---- What the comparator and the scores mean

  /**
   One string is before another exactly if it is a proper prefix, or has the smaller character where they first
   differ.
   */
  lemma {:induction false} StringLessExactly(s: string, t: string)
    ensures StringLess(s, t)
            <==> exists n: nat | n <= |s| && n < |t| :: s[..n] == t[..n] && (n == |s| || s[n] < t[n])
    decreases |s|
  {
    if StringLess(s, t) {
      var n := FirstDifference(s, t);
    } else if n: nat :| n <= |s| && n < |t| && s[..n] == t[..n] && (n == |s| || s[n] < t[n]) {
      LessAtDifference(s, t, n);
    }
  }

  lemma {:induction false} FirstDifference(s: string, t: string) returns (n: nat)
    requires StringLess(s, t)
    ensures n <= |s| && n < |t| && s[..n] == t[..n] && (n == |s| || s[n] < t[n])
    decreases |s|
  {
    n := 0;
    if s != "" && s[0] == t[0] {
      n := FirstDifference(s[1..], t[1..]);
      n := n + 1;
      assert s[..n] == [s[0]] + s[1..][..n - 1] && t[..n] == [t[0]] + t[1..][..n - 1];
    }
  }

  lemma {:induction false} LessAtDifference(s: string, t: string, n: nat)
    requires n <= |s| && n < |t| && s[..n] == t[..n] && (n == |s| || s[n] < t[n])
    ensures StringLess(s, t)
    decreases n
  {
    if n > 0 {
      assert s[0] == s[..n][0] && t[0] == t[..n][0];
      assert s[1..][..n - 1] == s[..n][1..] && t[1..][..n - 1] == t[..n][1..];
      LessAtDifference(s[1..], t[1..], n - 1);
    }
  }

  /**
   In a sorted list the scores ascend; for equal scores the groups do, for equal groups the kinds, and then the names.
   */
  lemma SortedAscends(score: Object -> int, xs: seq<Object>, i: nat, j: nat)
    requires Sorted(score, xs) && i < j < |xs|
    ensures score(xs[i]) <= score(xs[j])
    ensures score(xs[i]) == score(xs[j]) ==> xs[i].group == xs[j].group || StringLess(xs[i].group, xs[j].group)
    ensures score(xs[i]) == score(xs[j]) && xs[i].group == xs[j].group ==>
              xs[i].kind == xs[j].kind || StringLess(xs[i].kind, xs[j].kind)
    ensures score(xs[i]) == score(xs[j]) && xs[i].group == xs[j].group && xs[i].kind == xs[j].kind ==>
              xs[i].name == xs[j].name || StringLess(xs[i].name, xs[j].name)
  {
    assert !Less(score, xs[j], xs[i]);
    StringsCompare(xs[i].group, xs[j].group);
    StringsCompare(xs[i].kind, xs[j].kind);
    StringsCompare(xs[i].name, xs[j].name);
  }

  predicate Is(o: Object, group: string, kind: string) {
    o.group == group && o.kind == kind
  }

  /** The scores by group and kind. */
  lemma Scores(o: Object)
    ensures Is(o, "apiextensions.k8s.io", "CustomResourceDefinition") ==> Score(o) == -1000
    ensures Is(o, "", "ServiceAccount") || Is(o, "rbac.authorization.k8s.io", "ClusterRole") ==> Score(o) == 1
    ensures Is(o, "rbac.authorization.k8s.io", "ClusterRoleBinding") ==> Score(o) == 2
    ensures Is(o, "", "ConfigMap") || Is(o, "", "Secrets") ==> Score(o) == 100
    ensures Is(o, "extensions", "Deployment") || Is(o, "app", "Deployment") ==> Score(o) == 1000
    ensures Is(o, "autoscaling", "HorizontalPodAutoscaler") ==> Score(o) == 1001
    ensures Is(o, "", "Service") ==> Score(o) == 10000
    ensures o.group != "" && o.group[0] !in "aer/" ==> Score(o) == 1000
  {
    hide Score;
    EarlyScores(o);
    LateScores(o);
    if o.group != "" && o.group[0] !in "aer/" {
      OtherScores(o);
    }
  }

  lemma EarlyScores(o: Object)
    ensures Is(o, "apiextensions.k8s.io", "CustomResourceDefinition") ==> Score(o) == -1000
    ensures Is(o, "", "ServiceAccount") || Is(o, "rbac.authorization.k8s.io", "ClusterRole") ==> Score(o) == 1
    ensures Is(o, "rbac.authorization.k8s.io", "ClusterRoleBinding") ==> Score(o) == 2
  {
    assert "apiextensions.k8s.io" + "/" + "CustomResourceDefinition" == "apiextensions.k8s.io/CustomResourceDefinition";
    assert "" + "/" + "ServiceAccount" == "/ServiceAccount";
    assert "rbac.authorization.k8s.io" + "/" + "ClusterRole" == "rbac.authorization.k8s.io/ClusterRole";
    assert "rbac.authorization.k8s.io" + "/" + "ClusterRoleBinding" == "rbac.authorization.k8s.io/ClusterRoleBinding";
  }

  lemma LateScores(o: Object)
    ensures Is(o, "", "ConfigMap") || Is(o, "", "Secrets") ==> Score(o) == 100
    ensures Is(o, "extensions", "Deployment") || Is(o, "app", "Deployment") ==> Score(o) == 1000
    ensures Is(o, "autoscaling", "HorizontalPodAutoscaler") ==> Score(o) == 1001
    ensures Is(o, "", "Service") ==> Score(o) == 10000
  {
    hide Score;
    ConfigScores(o);
    DeploymentScores(o);
    AutoscalerScore(o);
    ServiceScore(o);
  }

  lemma ConfigScores(o: Object)
    ensures Is(o, "", "ConfigMap") || Is(o, "", "Secrets") ==> Score(o) == 100
  {
    assert "" + "/" + "ConfigMap" == "/ConfigMap" && "" + "/" + "Secrets" == "/Secrets";
  }

  lemma DeploymentScores(o: Object)
    ensures Is(o, "extensions", "Deployment") || Is(o, "app", "Deployment") ==> Score(o) == 1000
  {
    assert "extensions" + "/" + "Deployment" == "extensions/Deployment";
    assert "app" + "/" + "Deployment" == "app/Deployment";
  }

  lemma AutoscalerScore(o: Object)
    ensures Is(o, "autoscaling", "HorizontalPodAutoscaler") ==> Score(o) == 1001
  {
    assert "autoscaling" + "/" + "HorizontalPodAutoscaler" == "autoscaling/HorizontalPodAutoscaler";
  }

  lemma ServiceScore(o: Object)
    ensures Is(o, "", "Service") ==> Score(o) == 10000
  {
    assert "" + "/" + "Service" == "/Service";
  }

  lemma OtherScores(o: Object)
    requires o.group != "" && o.group[0] !in "aer/"
    ensures Score(o) == 1000
  {
    var gk := o.group + "/" + o.kind;
    assert gk[0] == o.group[0];
    assert forall s: string | s in {"apiextensions.k8s.io/CustomResourceDefinition", "/ServiceAccount", "/ConfigMap",
                                    "rbac.authorization.k8s.io/ClusterRole", "/Secrets", "/Service",
                                    "rbac.authorization.k8s.io/ClusterRoleBinding", "extensions/Deployment",
                                    "app/Deployment", "autoscaling/HorizontalPodAutoscaler"} :: s[0] in "aer/";
  }

  /** A list with one object of each, in the order of the scores, is sorted: definitions first, services last. */
  lemma OrderExample(crd: Object, account: Object, binding: Object, config: Object, deployment: Object, service: Object)
    requires Is(crd, "apiextensions.k8s.io", "CustomResourceDefinition") && Is(account, "", "ServiceAccount")
    requires Is(binding, "rbac.authorization.k8s.io", "ClusterRoleBinding") && Is(config, "", "ConfigMap")
    requires Is(deployment, "extensions", "Deployment") && Is(service, "", "Service")
    ensures Sorted(Score, [crd, account, binding, config, deployment, service])
  {
    hide Score;
    Scores(crd);
    Scores(account);
    Scores(binding);
    Scores(config);
    Scores(deployment);
    Scores(service);
  }
}
