/** Authorization rules over paths: a rule for a path also covers everything below it. */
module Authz {
  datatype Rule = Rule(resources: seq<string>, methods: seq<string>, users: seq<string>, groups: seq<string>)

  // ---- Splitting and joining at slashes ----

  function Split(s: string): (parts: seq<string>)
    ensures |parts| >= 1
  {
    if s == "" then [""]
    else
      var front, c := Split(s[..|s| - 1]), s[|s| - 1];
      var n := |front| - 1;
      if c == '/' then front + [""] else front[..n] + [front[n] + [c]]
  }

  function Join(parts: seq<string>): string {
    if parts == [] then ""
    else if |parts| == 1 then parts[0]
    else Join(parts[..|parts| - 1]) + "/" + parts[|parts| - 1]
  }

  lemma JoinAppend(parts: seq<string>, part: string)
    ensures Join(parts + [part]) == (if parts == [] then "" else Join(parts) + "/") + part
  {
    assert (parts + [part])[..|parts|] == parts;
  }

  lemma SplitAppend(s: string, c: char)
    ensures Split(s + [c]) ==
      var n := |Split(s)| - 1; if c == '/' then Split(s) + [""] else Split(s)[..n] + [Split(s)[n] + [c]]
  {
    assert (s + [c])[..|s|] == s;
  }

  lemma {:induction false} JoinSplit(s: string)
    ensures Join(Split(s)) == s
  {
    if s == "" {
    } else {
      var front, c := s[..|s| - 1], s[|s| - 1];
      assert s == front + [c];
      JoinSplit(front);
      SplitAppend(front, c);
      var parts, n := Split(front), |Split(front)| - 1;
      if c == '/' {
        JoinAppend(parts, "");
      } else {
        assert parts == parts[..n] + [parts[n]];
        JoinAppend(parts[..n], parts[n]);
        JoinAppend(parts[..n], parts[n] + [c]);
      }
    }
  }

  lemma {:induction false} SplitExtend(s: string, t: string)
    requires '/' !in t
    ensures Split(s + "/" + t) == Split(s) + [t]
  {
    if t == "" {
      SplitAppend(s, '/');
      assert s + "/" + t == s + ['/'];
    } else {
      var front, c := t[..|t| - 1], t[|t| - 1];
      SplitExtend(s, front);
      SplitAppend(s + "/" + front, c);
      assert (Split(s) + [front])[..|Split(s)|] == Split(s);
      assert t == front + [c];
      assert s + "/" + t == s + "/" + front + [c];
    }
  }

  lemma {:induction false} SplitPlain(t: string)
    requires '/' !in t
    ensures Split(t) == [t]
  {
    if t == "" {
    } else {
      SplitPlain(t[..|t| - 1]);
      assert t == t[..|t| - 1] + [t[|t| - 1]];
    }
  }

  /** Joining and splitting again gives the same parts, if none of them holds a slash. */
  lemma {:induction false} SplitJoin(parts: seq<string>)
    requires parts != [] && forall p | p in parts :: '/' !in p
    ensures Split(Join(parts)) == parts
  {
    var front, last := parts[..|parts| - 1], parts[|parts| - 1];
    assert parts == front + [last];
    if front == [] {
      SplitPlain(last);
    } else {
      SplitJoin(front);
      SplitExtend(Join(front), last);
    }
  }

  // ---- The ancestors of a path ----

  /** The path from its first slash on: what comes before is dropped. */
  function Rooted(s: string): string {
    if s == "" || s[0] == '/' then s else Rooted(s[1..])
  }

  predicate Boundary(s: string, k: nat)
    requires k <= |s|
  {
    k == |s| || s[k] == '/'
  }

  /** The prefixes of `s` of length at most `k` that end at a boundary, longest first. */
  function Cuts(s: string, k: nat): seq<string>
    requires k <= |s|
  {
    if k == 0 then []
    else if Boundary(s, k) then [s[..k]] + Cuts(s, k - 1)
    else Cuts(s, k - 1)
  }

  function Ancestors(resource: string): seq<string> {
    var path := Rooted(resource);
    Cuts(path, |path|)
  }

  lemma {:induction false} CutsExtend(s: string, c: char, k: nat)
    requires k <= |s| && (k == |s| ==> c == '/')
    ensures Cuts(s + [c], k) == Cuts(s, k)
  {
    if k == 0 {
    } else {
      CutsExtend(s, c, k - 1);
      assert (s + [c])[..k] == s[..k];
    }
  }

  lemma {:induction false} RootedAppend(s: string, c: char)
    ensures Rooted(s + [c]) == if Rooted(s) == "" && c != '/' then "" else Rooted(s) + [c]
  {
    if s != "" && s[0] != '/' {
      RootedAppend(s[1..], c);
      assert (s + [c])[1..] == s[1..] + [c];
    } else if s == "" {
      assert s + [c] == [c] && [c][1..] == "";
    }
  }

  /** What the loop builds out of the parts after the first, starting with all of them. */
  function Tree(parts: seq<string>): seq<string> {
    if parts == [] then [] else ["/" + Join(parts)] + Tree(parts[..|parts| - 1])
  }

  /** The loop over the parts of a path builds exactly its ancestors. */
  lemma {:induction false} TreeIsAncestors(s: string)
    ensures Tree(Split(s)[1..]) == Ancestors(s)
    ensures Split(s)[1..] == [] <==> Rooted(s) == ""
    ensures Split(s)[1..] != [] ==> "/" + Join(Split(s)[1..]) == Rooted(s)
  {
    if s == "" {
    } else {
      var s', c := s[..|s| - 1], s[|s| - 1];
      assert s == s' + [c];
      TreeIsAncestors(s');
      SplitAppend(s', c);
      RootedAppend(s', c);
      if c == '/' {
        TreeSlash(Split(s')[1..], Rooted(s'));
        assert Split(s)[1..] == Split(s')[1..] + [""];
      } else if Rooted(s') != "" { TreeLetter(s', c); }
    }
  }

  lemma TreeSlash(parts: seq<string>, r: string)
    requires Tree(parts) == Cuts(r, |r|)
    requires parts == [] ==> r == ""
    requires parts != [] ==> "/" + Join(parts) == r
    ensures var path := r + ['/']; "/" + Join(parts + [""]) == path && Tree(parts + [""]) == Cuts(path, |path|)
  {
    var parts', path := parts + [""], r + ['/'];
    JoinAppend(parts, "");
    assert "/" + Join(parts') == path;
    assert parts'[..|parts'| - 1] == parts && Tree(parts') == [path] + Tree(parts);
    CutsExtend(r, '/', |r|);
    assert path[..|path|] == path && Cuts(path, |path|) == [path] + Cuts(path, |r|);
  }

  lemma TreeLetter(s: string, c: char)
    requires Tree(Split(s)[1..]) == Ancestors(s) && c != '/' && Rooted(s) != ""
    requires Split(s)[1..] != [] && "/" + Join(Split(s)[1..]) == Rooted(s)
    ensures var n := |Split(s)| - 1; var parts := (Split(s)[..n] + [Split(s)[n] + [c]])[1..];
      var path := Rooted(s) + [c];
      "/" + Join(parts) == path && Tree(parts) == Cuts(path, |path|)
  {
    var parts, n := Split(s)[1..], |Split(s)| - 1;
    var front, last := parts[..n - 1], parts[n - 1];
    assert parts == front + [last];
    assert (Split(s)[..n] + [Split(s)[n] + [c]])[1..] == front + [last + [c]];
    TreeLonger(front, last, c, Rooted(s));
  }

  lemma JoinLonger(front: seq<string>, last: string, c: char)
    ensures "/" + Join(front + [last + [c]]) == "/" + Join(front + [last]) + [c]
  {
    JoinAppend(front, last);
    JoinAppend(front, last + [c]);
  }

  /** One more letter on the last part makes the longest path longer, and leaves the others as they are. */
  lemma TreeLonger(front: seq<string>, last: string, c: char, r: string)
    requires c != '/' && r != "" && "/" + Join(front + [last]) == r && Tree(front + [last]) == Cuts(r, |r|)
    ensures var parts := front + [last + [c]]; var path := r + [c];
      "/" + Join(parts) == path && Tree(parts) == Cuts(path, |path|)
  {
    var parts, parts', path := front + [last], front + [last + [c]], r + [c];
    JoinLonger(front, last, c);
    assert parts'[..|parts'| - 1] == front && parts[..|parts| - 1] == front;
    assert path[..|path|] == path && !Boundary(path, |r|);
    CutsExtend(r, c, |r| - 1);
    assert Tree(front) == Tree(parts)[1..] && Cuts(r, |r| - 1) == Cuts(r, |r|)[1..];
  }

  /** `path` is `rule` or lies below it. */
  predicate Covers(rule: string, path: string) {
    rule != "" && (rule == path || rule + "/" <= path)
  }

  lemma {:induction false} CutsMembers(s: string, k: nat, p: string)
    requires k <= |s|
    ensures p in Cuts(s, k) <==> 1 <= |p| <= k && p <= s && Boundary(s, |p|)
  {
    if k == 0 {
    } else {
      CutsMembers(s, k - 1, p);
      assert p == s[..k] <==> |p| == k && p <= s;
    }
  }

  lemma AncestorIff(resource: string, p: string)
    ensures p in Ancestors(resource) <==> Covers(p, Rooted(resource))
  {
    var s := Rooted(resource);
    CutsMembers(s, |s|, p);
    if p <= s && |p| < |s| && s[|p|] == '/' { assert s[..|p| + 1] == p + "/"; }
    if p + "/" <= s { assert s[|p|] == (p + "/")[|p|]; assert p <= p + "/"; }
  }

  lemma {:induction false} CutsLongestFirst(s: string, k: nat)
    requires k <= |s|
    ensures forall i | 0 <= i < |Cuts(s, k)| :: |Cuts(s, k)[i]| <= k
    ensures forall i, j | 0 <= i < j < |Cuts(s, k)| :: |Cuts(s, k)[i]| > |Cuts(s, k)[j]|
  {
    if k == 0 {
    } else {
      CutsLongestFirst(s, k - 1);
    }
  }

  // ---- Authorization ----

  predicate Grants(rule: Rule, path: string, action: string, user: string, groups: seq<string>) {
    && path in rule.resources && action in rule.methods
    && (user in rule.users || exists g | g in groups :: g in rule.groups)
  }

  predicate Permits(rules: seq<Rule>, resource: string, action: string, user: string, groups: seq<string>) {
    exists rule | rule in rules :: PermitsRule(rule, Ancestors(resource), action, user, groups)
  }

  predicate PermitsRule(rule: Rule, paths: seq<string>, action: string, user: string, groups: seq<string>) {
    exists path | path in paths :: Grants(rule, path, action, user, groups)
  }

  method ResourceTree(resource: string) returns (tree: seq<string>)
    ensures tree == Ancestors(resource)
  {
    var parts := Split(resource)[1..];
    tree := [];
    var i := |parts|;
    assert parts[..i] == parts;
    while i >= 1
      invariant 0 <= i <= |parts| && tree + Tree(parts[..i]) == Tree(parts)
    {
      assert parts[..i][..i - 1] == parts[..i - 1];
      tree := tree + ["/" + Join(parts[0..i])];
      i := i - 1;
    }
    TreeIsAncestors(resource);
  }

  method Authorized(rules: seq<Rule>, resource: string, action: string, user: string, groups: seq<string>)
    returns (ok: bool)
    ensures ok <==> exists rule, path | rule in rules && path in rule.resources ::
      && Covers(path, Rooted(resource)) && action in rule.methods
      && (user in rule.users || exists g | g in groups :: g in rule.groups)
  {
    PermitsIff(rules, resource, action, user, groups);
    var tree := ResourceTree(resource);
    for n := 0 to |rules|
      invariant forall rule | rule in rules[..n] :: !PermitsRule(rule, tree, action, user, groups)
    {
      for i := 0 to |tree|
        invariant forall path | path in tree[..i] :: !Grants(rules[n], path, action, user, groups)
      {
        if Grants(rules[n], tree[i], action, user, groups) {
          assert tree[i] in tree && PermitsRule(rules[n], tree, action, user, groups);
          return true;
        }
      }
      assert tree[..|tree|] == tree;
      assert rules[..n + 1] == rules[..n] + [rules[n]];
    }
    assert rules[..|rules|] == rules;
    ok := false;
  }

  /** A request is permitted exactly if some rule names a path that covers the requested one, lists the method, and
      lists the user or one of the groups. */
  lemma PermitsIff(rules: seq<Rule>, resource: string, action: string, user: string, groups: seq<string>)
    ensures Permits(rules, resource, action, user, groups) <==>
      exists rule, path | rule in rules && path in rule.resources ::
        && Covers(path, Rooted(resource)) && action in rule.methods
        && (user in rule.users || exists g | g in groups :: g in rule.groups)
  {
    if Permits(rules, resource, action, user, groups) {
      var rule :| rule in rules && PermitsRule(rule, Ancestors(resource), action, user, groups);
      var path :| path in Ancestors(resource) && Grants(rule, path, action, user, groups);
      AncestorIff(resource, path);
      assert rule in rules && path in rule.resources;
    }
    forall rule, path | rule in rules && path in rule.resources && Covers(path, Rooted(resource)) &&
        action in rule.methods && (user in rule.users || exists g | g in groups :: g in rule.groups)
      ensures Permits(rules, resource, action, user, groups)
    {
      AncestorIff(resource, path);
      assert path in Ancestors(resource);
      assert Grants(rule, path, action, user, groups);
      assert PermitsRule(rule, Ancestors(resource), action, user, groups);
    }
  }

  /** Nobody is permitted a method that no rule lists. */
  lemma MethodNeeded(rules: seq<Rule>, resource: string, action: string, user: string, groups: seq<string>)
    requires forall rule | rule in rules :: action !in rule.methods
    ensures !Permits(rules, resource, action, user, groups)
  {
    PermitsIff(rules, resource, action, user, groups);
  }

  /** Nor is anybody permitted anything whom no rule lists, by name or by group. */
  lemma SubjectNeeded(rules: seq<Rule>, resource: string, action: string, user: string, groups: seq<string>)
    requires forall rule | rule in rules :: user !in rule.users && forall g | g in groups :: g !in rule.groups
    ensures !Permits(rules, resource, action, user, groups)
  {
    PermitsIff(rules, resource, action, user, groups);
  }

  lemma {:induction false} RootedExtend(p: string, q: string)
    requires Rooted(p) != ""
    ensures Rooted(p + q) == Rooted(p) + q
  {
    if p[0] != '/' {
      RootedExtend(p[1..], q);
      assert (p + q)[1..] == p[1..] + q;
    }
  }

  /** Whoever may use a path may use everything below it. */
  lemma Closure(rules: seq<Rule>, p: string, q: string, action: string, user: string, groups: seq<string>)
    requires Permits(rules, p, action, user, groups)
    ensures Permits(rules, p + "/" + q, action, user, groups)
  {
    PermitsIff(rules, p, action, user, groups);
    PermitsIff(rules, p + "/" + q, action, user, groups);
    var rule, path :| rule in rules && path in rule.resources && Covers(path, Rooted(p)) &&
      action in rule.methods && (user in rule.users || exists g | g in groups :: g in rule.groups);
    RootedExtend(p, "/" + q);
    assert p + "/" + q == p + ("/" + q);
    var below := Rooted(p) + ("/" + q);
    if path == Rooted(p) {
      assert below[..|path| + 1] == path + "/";
    } else {
      assert below[..|path| + 1] == Rooted(p)[..|path| + 1];
    }
    assert Covers(path, below);
  }

  lemma {:induction false} RootedSlash(s: string)
    ensures Rooted(s) != "" ==> Rooted(s)[0] == '/'
  {
    if s == "" || s[0] == '/' {
    } else {
      RootedSlash(s[1..]);
    }
  }

  /** A path is not covered by one that it merely starts with. */
  lemma SiblingUncovered(p: string, c: char, q: string)
    requires c != '/'
    ensures !Covers(p, Rooted(p + [c] + q))
  {
    var full := p + [c] + q;
    RootedSlash(full);
    assert full[|p|] == c && (p + "/")[|p|] == '/';
    assert p != "" && p[0] == '/' ==> Rooted(full) == full;
  }

  /** So a rule's path `p` is no reason to permit a path that goes on after `p` without a slash: such a request is
      permitted exactly if one of the rule's other paths covers it. */
  lemma NoSiblings(rule: Rule, p: string, c: char, q: string, action: string, user: string, groups: seq<string>)
    requires c != '/'
    ensures Permits([rule], p + [c] + q, action, user, groups) <==>
      exists other | other in rule.resources && other != p ::
        && Covers(other, Rooted(p + [c] + q)) && action in rule.methods
        && (user in rule.users || exists g | g in groups :: g in rule.groups)
  {
    PermitsIff([rule], p + [c] + q, action, user, groups);
    SiblingUncovered(p, c, q);
    if other :| (other in rule.resources && other != p && Covers(other, Rooted(p + [c] + q)) &&
                 action in rule.methods && (user in rule.users || exists g | g in groups :: g in rule.groups))
    {
      assert rule in [rule];
    }
  }

  /** A path without a slash is never permitted, whatever the rules. */
  lemma NoSlashNoPermission(rules: seq<Rule>, resource: string, action: string, user: string, groups: seq<string>)
    requires '/' !in resource
    ensures !Permits(rules, resource, action, user, groups)
  {
    PermitsIff(rules, resource, action, user, groups);
    NoSlashNoRoot(resource);
  }

  lemma {:induction false} NoSlashNoRoot(s: string)
    requires '/' !in s
    ensures Rooted(s) == ""
  {
    if s == "" {
    } else {
      NoSlashNoRoot(s[1..]);
    }
  }
}
