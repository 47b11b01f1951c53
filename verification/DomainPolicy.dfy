// The ordered allow/deny policy over hosts, and validation under a policy.

module DomainPolicy {
  import opened Words
  import opened Text
  import opened DomainValidator
  import opened DomainGrammar

  datatype Action = Allow | Deny

  datatype Rule = Rule(action: Action, pattern: string)

  datatype Policy = Policy(rules: seq<Rule>, defaultDeny: bool)

  // ----- building -----

  // The builder trims the pattern and ignores blank ones.
  function WithRule(p: Policy, action: Action, pattern: string): Policy {
    var trimmed := Trim(pattern);
    if trimmed == "" then p else p.(rules := p.rules + [Rule(action, trimmed)])
  }

  // ----- matching -----

  predicate EndsWith(s: string, suffix: string) {
    |suffix| <= |s| && s[|s| - |suffix|..] == suffix
  }

  predicate Matches(rule: Rule, host: string) {
    var h, p := Lower(host), Lower(rule.pattern);
    p != "" && (h == p || EndsWith(h, "." + p))
  }

  function PermitsFrom(rules: seq<Rule>, defaultDeny: bool, host: string): bool {
    if rules == [] then !defaultDeny
    else if Matches(rules[0], host) then rules[0].action == Allow
    else PermitsFrom(rules[1..], defaultDeny, host)
  }

  function Permits(p: Policy, host: string): bool {
    PermitsFrom(p.rules, p.defaultDeny, host)
  }

  // ----- matching is by whole labels -----

  predicate Suffix(suffix: seq<string>, labels: seq<string>) {
    |suffix| <= |labels| && labels[|labels| - |suffix|..] == suffix
  }

  // The labels of the pattern are the last labels of the host, up to the case of ASCII letters.
  predicate Covers(pattern: string, host: string) {
    EndLabels(Split(pattern, '.'), Split(host, '.'))
  }

  predicate EndLabels(ps: seq<string>, hs: seq<string>) {
    |ps| <= |hs| && forall i :: 0 <= i < |ps| ==> SameText(ps[i], hs[|hs| - |ps| + i])
  }

  lemma SuffixByLabel(ps: seq<string>, hs: seq<string>, lowerPs: seq<string>, lowerHs: seq<string>)
    requires lowerPs == LowerAll(ps) && lowerHs == LowerAll(hs)
    ensures EndLabels(ps, hs) <==> Suffix(lowerPs, lowerHs)
  {
    if |ps| <= |hs| {
      var k := |hs| - |ps|;
      var tail := lowerHs[k..];
      forall i | 0 <= i < |ps| ensures lowerPs[i] == tail[i] <==> SameText(ps[i], hs[k + i]) {
        EqIgnoreCaseIff(ps[i], hs[k + i]);
      }
      if forall i :: 0 <= i < |ps| ==> SameText(ps[i], hs[k + i]) {
        assert tail == lowerPs;
      }
    }
  }

  lemma CoversIff(pattern: string, host: string)
    ensures Covers(pattern, host) <==> Suffix(Split(Lower(pattern), '.'), Split(Lower(host), '.'))
  {
    SplitLower(pattern, '.');
    SplitLower(host, '.');
    SuffixByLabel(Split(pattern, '.'), Split(host, '.'), Split(Lower(pattern), '.'), Split(Lower(host), '.'));
  }

  lemma DottedSuffixIsLabelSuffix(h: string, p: string)
    requires EndsWith(h, "." + p)
    ensures Suffix(Split(p, '.'), Split(h, '.'))
  {
    var front := h[..|h| - |p| - 1];
    assert h == front + ['.'] + p;
    SplitConcat(front, p, '.');
  }

  lemma LabelSuffixIsDottedSuffix(h: string, p: string)
    requires Suffix(Split(p, '.'), Split(h, '.'))
    ensures h == p || EndsWith(h, "." + p)
  {
    var hs, ps := Split(h, '.'), Split(p, '.');
    JoinSplit(h, '.');
    JoinSplit(p, '.');
    var front := hs[..|hs| - |ps|];
    assert hs == front + ps;
    if front == [] {
      assert hs == ps;
    } else {
      JoinConcat(front, ps, '.');
      JoinedSuffix(Join(front, '.'), p);
    }
  }

  lemma JoinedSuffix(front: string, p: string)
    ensures EndsWith(front + ['.'] + p, "." + p)
  {
  }

  lemma MatchesIffLabelSuffix(rule: Rule, host: string)
    ensures Matches(rule, host) <==> rule.pattern != "" && Covers(rule.pattern, host)
  {
    CoversIff(rule.pattern, host);
    var h, p := Lower(host), Lower(rule.pattern);
    if EndsWith(h, "." + p) {
      DottedSuffixIsLabelSuffix(h, p);
    }
    if Suffix(Split(p, '.'), Split(h, '.')) {
      LabelSuffixIsDottedSuffix(h, p);
    }
  }

  // ----- first match wins -----

  ghost predicate FirstMatch(rules: seq<Rule>, host: string, i: nat) {
    i < |rules| && Matches(rules[i], host) && forall j :: 0 <= j < i ==> !Matches(rules[j], host)
  }

  ghost predicate NoMatch(rules: seq<Rule>, host: string) {
    forall i :: 0 <= i < |rules| ==> !Matches(rules[i], host)
  }

  lemma {:induction false} FirstMatchDecides(rules: seq<Rule>, defaultDeny: bool, host: string)
    ensures NoMatch(rules, host) ==> PermitsFrom(rules, defaultDeny, host) == !defaultDeny
    ensures forall i: nat :: FirstMatch(rules, host, i) ==>
              (PermitsFrom(rules, defaultDeny, host) <==> rules[i].action == Allow)
    ensures !NoMatch(rules, host) ==> exists i: nat :: FirstMatch(rules, host, i)
  {
    if rules != [] {
      var rest := rules[1..];
      FirstMatchDecides(rest, defaultDeny, host);
      if Matches(rules[0], host) {
        assert FirstMatch(rules, host, 0);
      } else {
        if !NoMatch(rest, host) {
          var k: nat :| FirstMatch(rest, host, k);
          forall j | 0 <= j < k + 1 ensures !Matches(rules[j], host) {
            assert j > 0 ==> rules[j] == rest[j - 1];
          }
          assert FirstMatch(rules, host, k + 1);
        } else {
          assert forall i :: 0 < i < |rules| ==> rules[i] == rest[i - 1];
        }
        forall i: nat | FirstMatch(rules, host, i) ensures FirstMatch(rest, host, i - 1) {
          assert rest[i - 1] == rules[i];
        }
      }
    }
  }

  // ----- shadowed rules -----

  // Deleting a rule whose pattern extends an earlier rule's by more leading labels (or by none)
  // changes no decision.
  lemma ShadowedRuleIsDead(before: seq<Rule>, general: Rule, between: seq<Rule>, specific: Rule, after: seq<Rule>,
                           defaultDeny: bool, host: string)
    requires general.pattern != ""
    requires Covers(general.pattern, specific.pattern)
    ensures Permits(Policy(before + [general] + between + [specific] + after, defaultDeny), host)
         == Permits(Policy(before + [general] + between + after, defaultDeny), host)
  {
    var head := before + [general] + between;
    if Matches(specific, host) {
      CoversTransitive(general.pattern, specific.pattern, host);
      MatchesIffLabelSuffix(specific, host);
      MatchesIffLabelSuffix(general, host);
      assert head[|before|] == general;
      MatchedPrefixDecides(head, [specific] + after, defaultDeny, host);
      MatchedPrefixDecides(head, after, defaultDeny, host);
      assert head + ([specific] + after) == head + [specific] + after;
    } else {
      UnmatchedRuleIsDead(head, specific, after, defaultDeny, host);
    }
  }

  lemma CoversTransitive(a: string, b: string, c: string)
    ensures Covers(a, b) && Covers(b, c) ==> Covers(a, c)
  {
    CoversIff(a, b);
    CoversIff(b, c);
    CoversIff(a, c);
  }

  lemma {:induction false} MatchedPrefixDecides(head: seq<Rule>, tail: seq<Rule>, defaultDeny: bool, host: string)
    requires !NoMatch(head, host)
    ensures PermitsFrom(head + tail, defaultDeny, host) == PermitsFrom(head, defaultDeny, host)
  {
    if !Matches(head[0], host) {
      assert (head + tail)[1..] == head[1..] + tail;
      var i :| 0 <= i < |head| && Matches(head[i], host);
      assert head[1..][i - 1] == head[i];
      MatchedPrefixDecides(head[1..], tail, defaultDeny, host);
    }
  }

  lemma {:induction false} UnmatchedRuleIsDead(
      head: seq<Rule>, rule: Rule, tail: seq<Rule>, defaultDeny: bool, host: string)
    requires !Matches(rule, host)
    ensures PermitsFrom(head + [rule] + tail, defaultDeny, host) == PermitsFrom(head + tail, defaultDeny, host)
  {
    if head == [] {
      PermitsSkips(rule, tail, defaultDeny, host);
      assert [] + [rule] + tail == [rule] + tail && [] + tail == tail;
    } else {
      var longer, shorter := head + [rule] + tail, head + tail;
      assert longer[0] == head[0] == shorter[0];
      assert longer[1..] == head[1..] + [rule] + tail;
      assert shorter[1..] == head[1..] + tail;
      UnmatchedRuleIsDead(head[1..], rule, tail, defaultDeny, host);
    }
  }

  lemma PermitsSkips(rule: Rule, tail: seq<Rule>, defaultDeny: bool, host: string)
    requires !Matches(rule, host)
    ensures PermitsFrom([rule] + tail, defaultDeny, host) == PermitsFrom(tail, defaultDeny, host)
  {
    assert ([rule] + tail)[1..] == tail;
  }

  // A rule added by the builder decides exactly the hosts no earlier rule matched and its
  // trimmed pattern covers.
  lemma AddedRule(p: Policy, action: Action, pattern: string, host: string)
    ensures Permits(WithRule(p, action, pattern), host) ==
            if NoMatch(p.rules, host) && Trim(pattern) != "" && Covers(Trim(pattern), host)
            then action == Allow else Permits(p, host)
  {
    var rule := Rule(action, Trim(pattern));
    MatchesIffLabelSuffix(rule, host);
    if Trim(pattern) != "" {
      if NoMatch(p.rules, host) {
        FirstMatchDecides(p.rules, p.defaultDeny, host);
        if Matches(rule, host) {
          assert FirstMatch(p.rules + [rule], host, |p.rules|);
        } else {
          assert NoMatch(p.rules + [rule], host);
        }
        FirstMatchDecides(p.rules + [rule], p.defaultDeny, host);
      } else {
        MatchedPrefixDecides(p.rules, [rule], p.defaultDeny, host);
      }
    }
  }

  // ----- validation under a policy -----

  function ValidateWithPolicy(domain: string, policy: Option<Policy>): Verdict {
    var baseline := ValidateAnchorDomain(domain);
    if baseline != Accepted then baseline
    else match policy
      case None => Accepted
      case Some(p) =>
        var host := ExtractHost(domain);
        if Permits(p, host) then Accepted else BlockedByPolicy(host)
  }

  // With a policy, exactly the grammatical URLs whose host the policy permits are accepted, and
  // a blocked URL is reported with its host.
  lemma PolicyVerdict(url: string, policy: Policy, p: Parts)
    requires AnchorUrl(url) && MadeOf(url, p)
    ensures ValidateWithPolicy(url, Some(policy)) ==
            if Permits(policy, p.host) then Accepted else BlockedByPolicy(p.host)
    ensures ValidateWithPolicy(url, None) == Accepted
  {
    AcceptedIffGrammar(url);
    ExtractedHost(url, p);
  }

  lemma PolicyNeverWidens(url: string, policy: Option<Policy>)
    requires !AnchorUrl(url)
    ensures ValidateWithPolicy(url, policy) == InvalidEndpointFormat
  {
    AcceptedIffGrammar(url);
    OnlyTwoVerdicts(url);
  }
}
