/** The WAFv2 service as the allowlist tool sees it, the order-stable de-duplication, and the
    bounded retry loop (scripts/perf_waf_allowlist.py). */
module WafServer {
  import opened Common

  type Cidr = string

  datatype Action = Allow | Block

  /** `Opaque` stands for every statement the tool does not build: managed groups, the rate rule. */
  datatype Statement = IpSetReference(arn: nat) | Opaque(text: string)

  datatype Rule = Rule(name: string, priority: int, statement: Statement, action: Action, metric: string)

  /** `options` holds the optional top-level fields; the empty string is a falsy value. */
  datatype WebAcl = WebAcl(defaultAction: Action, visibility: string,
                           options: map<string, string>, rules: seq<Rule>)

  datatype IpSet = IpSet(id: nat, addresses: seq<Cidr>)

  /** The one IPSet of the fixed name, the one WebACL, and the current lock token of each.
      A token is never reissued, so a counter stands for it. */
  datatype Server = Server(ipSet: Option<IpSet>, ipToken: nat, acl: WebAcl, aclToken: nat)

  const RATE_RULE_PRIORITY: int := 100

  const PASSTHROUGH_KEYS: set<string> :=
    {"Description", "CustomResponseBodies", "CaptchaConfig", "ChallengeConfig", "TokenDomains",
     "AssociationConfig"}

  // ---------------------------------------------------------------- de-duplication

  /** Keep the first occurrence of every item. */
  function Dedupe<T(==)>(items: seq<T>): seq<T> {
    if items == [] then []
    else
      var rest := Dedupe(items[..|items| - 1]);
      var last := items[|items| - 1];
      if last in items[..|items| - 1] then rest else rest + [last]
  }

  method ComputeDedupe<T(==)>(items: seq<T>) returns (out: seq<T>)
    ensures out == Dedupe(items)
  {
    var seen: set<T> := {};
    out := [];
    for i := 0 to |items|
      invariant seen == Elems(items[..i])
      invariant out == Dedupe(items[..i])
    {
      assert items[..i + 1][..i] == items[..i];
      assert items[..i + 1] == items[..i] + [items[i]];
      if items[i] !in seen {
        seen := seen + {items[i]};
        out := out + [items[i]];
      }
    }
    assert items[..|items|] == items;
  }

  /** De-duplication neither loses nor invents an item, and repeats none. */
  lemma {:induction false} DedupeIsASet<T>(items: seq<T>)
    ensures NoDup(Dedupe(items))
    ensures forall x :: x in Dedupe(items) <==> x in items
  {
    if items != [] {
      var front, last := items[..|items| - 1], items[|items| - 1];
      DedupeIsASet(front);
      assert items == front + [last];
    }
  }

  /** Order stability: a duplicate-free list survives as a prefix whatever is merged after it. */
  lemma {:induction false} DedupeKeepsPrefix<T>(a: seq<T>, b: seq<T>)
    requires NoDup(a)
    ensures a <= Dedupe(a + b)
    ensures AllIn(b, a) ==> Dedupe(a + b) == a
    decreases |a| + |b|
  {
    if b != [] {
      var front := b[..|b| - 1];
      assert (a + b)[..|a + b| - 1] == a + front;
      assert b == front + [b[|b| - 1]];
      DedupeKeepsPrefix(a, front);
    } else if a != [] {
      var front := a[..|a| - 1];
      assert a + b == a;
      assert front + [] == front;
      DedupeKeepsPrefix(front, []);
      assert a[|a| - 1] !in front;
      assert a == front + [a[|a| - 1]];
    } else {
      assert a + b == [];
    }
  }

  // ---------------------------------------------------------------- retry wrapper

  /** What one fetch-and-mutate attempt can do: return, raise a lock/unavailable error, raise else. */
  datatype Attempt<T> = Value(value: T) | RetryableError | OtherError

  datatype RetryError = Exhausted | Propagated

  /** The retry loop: the k-th call of the attempt behaves as `attempt(k)`. It runs at most
      retries + 1 times, and returns or re-raises the first outcome that is not retryable. */
  method WithLockRetry<T>(attempt: nat -> Attempt<T>, retries: int)
    returns (r: Result<T, RetryError>, calls: nat)
    ensures calls <= if retries < 0 then 0 else retries + 1
    ensures forall k: nat :: k + 1 < calls ==> attempt(k).RetryableError?
    ensures r == Err(Exhausted) <==>
            forall k: nat :: k <= retries ==> attempt(k).RetryableError?
    ensures r != Err(Exhausted) ==>
            calls > 0 &&
            r == (match attempt(calls - 1)
                  case Value(v) => Ok(v)
                  case _ => Err(Propagated)) &&
            !attempt(calls - 1).RetryableError?
  {
    calls := 0;
    var triesLeft := retries;
    while triesLeft > -1
      invariant retries >= 0 ==> -1 <= triesLeft && calls + triesLeft == retries
      invariant retries < 0 ==> triesLeft == retries && calls == 0
      invariant forall k: nat :: k < calls ==> attempt(k).RetryableError?
      decreases triesLeft + 1
    {
      var outcome := attempt(calls);
      calls := calls + 1;
      match outcome {
        case Value(v) => return Ok(v), calls;
        case OtherError => return Err(Propagated), calls;
        case RetryableError =>
      }
      triesLeft := triesLeft - 1;
    }
    r := Err(Exhausted);
  }

  // ---------------------------------------------------------------- WebACL edits

  function BuildAllowRule(name: string, priority: int, arn: nat): Rule {
    Rule(name, priority, IpSetReference(arn), Allow, name)
  }

  /** What update_web_acl is sent: the listed optional fields that are truthy, and nothing else. */
  function Echo(acl: WebAcl, rules: seq<Rule>): WebAcl {
    acl.(options := map k | k in acl.options && k in PASSTHROUGH_KEYS && acl.options[k] != "" :: acl.options[k],
         rules := rules)
  }

  /** The round trip is verbatim exactly when every optional field is a listed, truthy one; and
      after one round trip every further one is verbatim. */
  lemma EchoVerbatim(acl: WebAcl, rules: seq<Rule>)
    ensures Echo(acl, acl.rules) == acl <==>
            forall k :: k in acl.options ==> k in PASSTHROUGH_KEYS && acl.options[k] != ""
    ensures Echo(Echo(acl, rules), acl.rules) == Echo(acl, acl.rules)
    ensures forall k :: k in PASSTHROUGH_KEYS && k in acl.options && acl.options[k] != "" ==>
                        k in Echo(acl, rules).options && Echo(acl, rules).options[k] == acl.options[k]
  {
    var once := Echo(acl, acl.rules);
    if forall k :: k in acl.options ==> k in PASSTHROUGH_KEYS && acl.options[k] != "" {
      assert once.options == acl.options;
    } else {
      var k :| k in acl.options && !(k in PASSTHROUGH_KEYS && acl.options[k] != "");
      assert k !in once.options;
    }
    assert Echo(Echo(acl, rules), acl.rules).options == once.options;
  }

  datatype ScanOutcome = Present | Collision | Clear

  /** An optional field that is not listed is lost on the way, although nothing is said to be dropped. */
  lemma UnlistedFieldIsLost(acl: WebAcl)
    requires acl.options == map["DataProtectionConfig" := "on"]
    ensures Echo(acl, acl.rules).options == map[]
  {
    assert "DataProtectionConfig" !in PASSTHROUGH_KEYS;
  }

  /** The loop over existing rules before an add: by-name hit wins over a later priority clash, an
      earlier priority clash wins over a later by-name hit. */
  function ScanRules(rules: seq<Rule>, name: string, priority: int): ScanOutcome {
    if rules == [] then Clear
    else if rules[0].name == name then Present
    else if rules[0].priority == priority then Collision
    else ScanRules(rules[1..], name, priority)
  }

  /** The rule at i stops the scan: nothing before it carries the name or the priority. */
  ghost predicate StopsAt(rules: seq<Rule>, name: string, priority: int, i: nat) {
    && i < |rules| && (rules[i].name == name || rules[i].priority == priority)
    && forall j :: 0 <= j < i ==> rules[j].name != name && rules[j].priority != priority
  }

  /** The scan is clear when neither name nor priority occurs; otherwise the first rule that carries either
      decides, by its name. */
  lemma {:induction false} ScanMeaning(rules: seq<Rule>, name: string, priority: int)
    ensures ScanRules(rules, name, priority) == Clear <==>
            forall r :: r in rules ==> r.name != name && r.priority != priority
    ensures ScanRules(rules, name, priority) == Present <==>
            exists i: nat :: StopsAt(rules, name, priority, i) && rules[i].name == name
    ensures ScanRules(rules, name, priority) == Collision <==>
            exists i: nat :: StopsAt(rules, name, priority, i) && rules[i].name != name
  {
    if rules != [] {
      var rest := rules[1..];
      ScanMeaning(rest, name, priority);
      assert rules == [rules[0]] + rest;
      if rules[0].name == name || rules[0].priority == priority {
        assert StopsAt(rules, name, priority, 0);
      } else {
        forall i: nat ensures StopsAt(rules, name, priority, i + 1) <==> StopsAt(rest, name, priority, i) {
          ScanShift(rules, name, priority, i);
        }
        assert forall i: nat :: StopsAt(rules, name, priority, i) ==> i > 0 && StopsAt(rest, name, priority, i - 1);
      }
    }
  }

  lemma ScanShift(rules: seq<Rule>, name: string, priority: int, i: nat)
    requires rules != [] && rules[0].name != name && rules[0].priority != priority
    ensures StopsAt(rules, name, priority, i + 1) <==> StopsAt(rules[1..], name, priority, i)
  {
    if StopsAt(rules[1..], name, priority, i) {
      forall j | 0 <= j < i + 1 ensures rules[j].name != name && rules[j].priority != priority {
        assert j > 0 ==> rules[j] == rules[1..][j - 1];
      }
    }
  }

  /** The rules that do not carry the given name, in order. */
  function Others(rules: seq<Rule>, name: string): seq<Rule> {
    if rules == [] then []
    else if rules[0].name != name then [rules[0]] + Others(rules[1..], name)
    else Others(rules[1..], name)
  }

  ghost predicate HasRule(rules: seq<Rule>, name: string) {
    exists r :: r in rules && r.name == name
  }

  /** Filtering out a name: what is left, and when nothing is lost. */
  lemma {:induction false} OthersMeaning(rules: seq<Rule>, name: string)
    ensures !HasRule(Others(rules, name), name)
    ensures forall r :: r in Others(rules, name) ==> r in rules
    ensures |Others(rules, name)| <= |rules|
    ensures |Others(rules, name)| == |rules| <==> !HasRule(rules, name)
    ensures Others(rules, name) == rules <==> !HasRule(rules, name)
  {
    if rules != [] {
      OthersMeaning(rules[1..], name);
      assert rules == [rules[0]] + rules[1..];
      if rules[0].name == name {
        assert HasRule(rules, name);
      } else if HasRule(rules[1..], name) {
        assert HasRule(rules, name);
      }
    }
  }

  lemma {:induction false} OthersAppend(a: seq<Rule>, b: seq<Rule>, name: string)
    ensures Others(a + b, name) == Others(a, name) + Others(b, name)
  {
    if a == [] {
      assert a + b == b;
    } else {
      OthersAppend(a[1..], b, name);
      assert (a + b)[1..] == a[1..] + b;
    }
  }

  lemma OthersIdempotent(rules: seq<Rule>, name: string)
    ensures Others(Others(rules, name), name) == Others(rules, name)
  {
    OthersMeaning(rules, name);
    OthersMeaning(Others(rules, name), name);
  }
}
