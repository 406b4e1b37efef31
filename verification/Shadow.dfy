/** Drift detection of the device shadow (internal/shadow/shadow.go). Decoding the interfaces string
    is a parameter: any function from text to a map, or to nothing when the text is malformed. */
module Shadow {
  import opened Bytes

  type Interfaces = map<string, seq<string>>

  type Decoder = string -> Option<Interfaces>

  datatype Reported = Reported(version: string, publicIP: seq<string>, interfaces: string)

  function CountOf(counts: map<string, int>, v: string): int {
    if v in counts then counts[v] else 0
  }

  lemma SameSizeSubset(a: multiset<string>, b: multiset<string>)
    requires (forall v :: b[v] <= a[v]) && |a| == |b|
    ensures a == b
  {
    assert a == b + (a - b);
  }

  /** How the count of each string changes with one more element. */
  lemma CountNext(s: seq<string>, i: nat)
    requires i < |s|
    ensures forall v :: multiset(s[..i + 1])[v] == multiset(s[..i])[v] + (if v == s[i] then 1 else 0)
    ensures multiset(s[..i + 1])[s[i]] <= multiset(s)[s[i]]
  {
    assert s[..i + 1] == s[..i] + [s[i]];
    assert s == s[..i + 1] + s[i + 1..];
    assert multiset(s) == multiset(s[..i + 1]) + multiset(s[i + 1..]);
  }

  lemma Counted(counts: map<string, int>, v: string, n: int)
    ensures forall w :: CountOf(counts[v := n], w) == (if w == v then n else CountOf(counts, w))
  {
    forall w ensures CountOf(counts[v := n], w) == (if w == v then n else CountOf(counts, w)) {
      assert w in counts[v := n] <==> w == v || w in counts;
    }
  }

  /** Counts up over one list and down over the other; true exactly when the lists are equal as multisets. */
  method EqualStringSet(a: seq<string>, b: seq<string>) returns (same: bool)
    ensures same <==> multiset(a) == multiset(b)
  {
    hide CountOf;
    if |a| != |b| {
      assert |multiset(a)| != |multiset(b)|;
      return false;
    }
    var counts: map<string, int> := map[];
    assert forall v :: CountOf(counts, v) == 0 by { NothingCounted(); }
    for i := 0 to |a|
      invariant forall v :: CountOf(counts, v) == multiset(a[..i])[v]
    {
      CountNext(a, i);
      var n := CountOf(counts, a[i]) + 1;
      Counted(counts, a[i], n);
      counts := counts[a[i] := n];
      assert forall v :: CountOf(counts, v) == multiset(a[..i])[v] + (if v == a[i] then 1 else 0);
    }
    assert a[..|a|] == a && b[..|b|] == b;
    for j := 0 to |b|
      invariant forall v :: CountOf(counts, v) == multiset(a)[v] as int - multiset(b[..j])[v]
      invariant forall v :: multiset(b[..j])[v] <= multiset(a)[v]
    {
      CountNext(b, j);
      var n := CountOf(counts, b[j]) - 1;
      Counted(counts, b[j], n);
      counts := counts[b[j] := n];
      if n < 0 {
        assert multiset(b)[b[j]] > multiset(a)[b[j]];
        return false;
      }
    }
    SameSizeSubset(multiset(a), multiset(b));
    return true;
  }

  lemma NothingCounted()
    ensures forall v :: CountOf(map[], v) == 0
  {
  }

  function DecodeInterfaces(decode: Decoder, s: string): Option<Interfaces> {
    if s == "" then Some(map[]) else decode(s)
  }

  predicate EqualInterfaces(decode: Decoder, a: string, b: string) {
    match (DecodeInterfaces(decode, a), DecodeInterfaces(decode, b))
    case (Some(ma), Some(mb)) => |ma| == |mb| && forall name <- ma :: name in mb && ma[name] == mb[name]
    case _ => false
  }

  lemma SameSizeKeys(a: set<string>, b: set<string>)
    requires a <= b && |a| == |b|
    ensures a == b
  {
    assert b == a + (b - a);
  }

  /** Same size and agreement on one side's keys is equality of the decoded maps. */
  lemma EqualInterfacesExact(decode: Decoder, a: string, b: string)
    ensures EqualInterfaces(decode, a, b) <==>
            DecodeInterfaces(decode, a).Some? && DecodeInterfaces(decode, a) == DecodeInterfaces(decode, b)
  {
    if EqualInterfaces(decode, a, b) {
      var ma, mb := DecodeInterfaces(decode, a).value, DecodeInterfaces(decode, b).value;
      SameSizeKeys(ma.Keys, mb.Keys);
      assert ma == mb;
    }
  }

  /** An empty text stands for no interfaces. */
  lemma EmptyInterfaces(decode: Decoder, b: string)
    ensures EqualInterfaces(decode, "", b) <==> b == "" || decode(b) == Some(map[])
  {
    EqualInterfacesExact(decode, "", b);
  }

  predicate Equal(decode: Decoder, s: Reported, o: Reported) {
    s.version == o.version && multiset(s.publicIP) == multiset(o.publicIP) && EqualInterfaces(decode, s.interfaces, o.interfaces)
  }

  /** Equality is symmetric and transitive; a state equals itself exactly when its interfaces decode. */
  lemma EqualIsEquivalence(decode: Decoder, s: Reported, o: Reported, p: Reported)
    ensures Equal(decode, s, s) <==> DecodeInterfaces(decode, s.interfaces).Some?
    ensures Equal(decode, s, o) ==> Equal(decode, o, s)
    ensures Equal(decode, s, o) && Equal(decode, o, p) ==> Equal(decode, s, p)
  {
    forall x, y | x in {s, o, p} && y in {s, o, p} {
      EqualInterfacesExact(decode, x.interfaces, y.interfaces);
    }
  }

  class Reporter {
    var published: seq<Reported>

    /** Publishes the current state exactly when the broker's document differs from it. */
    method HandleGetAccepted(decode: Decoder, current: Reported, reported: Reported)
      modifies this`published
      ensures published == old(published) + if Equal(decode, current, reported) then [] else [current]
      ensures published == old(published) <==>
                && current.version == reported.version
                && multiset(current.publicIP) == multiset(reported.publicIP)
                && DecodeInterfaces(decode, current.interfaces).Some?
                && DecodeInterfaces(decode, current.interfaces) == DecodeInterfaces(decode, reported.interfaces)
    {
      EqualInterfacesExact(decode, current.interfaces, reported.interfaces);
      if current.version == reported.version {
        var ips := EqualStringSet(current.publicIP, reported.publicIP);
        if ips && EqualInterfaces(decode, current.interfaces, reported.interfaces) {
          return;
        }
      }
      published := published + [current];
    }
  }

  /** The broker merges an update key by key; empty fields are not sent, so they do not overwrite. */
  function Merge(doc: Reported, update: Reported): Reported {
    Reported(
      if update.version == "" then doc.version else update.version,
      if update.publicIP == [] then doc.publicIP else update.publicIP,
      if update.interfaces == "" then doc.interfaces else update.interfaces)
  }

  /** The broker's document after one check. */
  function AfterCheck(decode: Decoder, doc: Reported, current: Reported): Reported {
    if Equal(decode, current, doc) then doc else Merge(doc, current)
  }

  /** However the broker re-serializes its document, the check decides the same. */
  lemma EchoIrrelevant(decode: Decoder, current: Reported, doc: Reported, echo: Reported)
    requires Equal(decode, doc, echo)
    ensures Equal(decode, current, echo) <==> Equal(decode, current, doc)
  {
    EqualIsEquivalence(decode, current, doc, echo);
    EqualIsEquivalence(decode, current, echo, doc);
    EqualIsEquivalence(decode, doc, echo, doc);
  }

  /** No stored value would survive an empty field of the update. */
  predicate NothingStale(doc: Reported, current: Reported) {
    (current.version != "" || doc.version == "") && (current.publicIP != [] || doc.publicIP == [])
  }

  /** One check-and-update settles the document exactly when no empty field leaves a stale value. */
  lemma OneUpdateSettlesExactly(decode: Decoder, doc: Reported, current: Reported)
    requires current.interfaces != "" && DecodeInterfaces(decode, current.interfaces).Some?
    ensures Equal(decode, current, AfterCheck(decode, doc, current)) <==> NothingStale(doc, current)
  {
    EqualInterfacesExact(decode, current.interfaces, current.interfaces);
    if |multiset(current.publicIP)| == 0 {
      assert current.publicIP == [];
    }
    if current.publicIP == [] && doc.publicIP != [] {
      assert doc.publicIP[0] in multiset(doc.publicIP);
    }
  }

  /** How many of the next `n` checks publish an update. */
  function Updates(decode: Decoder, doc: Reported, current: Reported, n: nat): nat
    decreases n
  {
    if n == 0 then 0
    else (if Equal(decode, current, doc) then 0 else 1) + Updates(decode, AfterCheck(decode, doc, current), current, n - 1)
  }

  /** With a stale value every check publishes again, for ever; otherwise at most the first one does. */
  lemma {:induction false} UpdatesOverTime(decode: Decoder, doc: Reported, current: Reported, n: nat)
    requires current.interfaces != "" && DecodeInterfaces(decode, current.interfaces).Some?
    ensures !NothingStale(doc, current) ==> Updates(decode, doc, current, n) == n
    ensures NothingStale(doc, current) ==> Updates(decode, doc, current, n) <= 1
    ensures Equal(decode, current, doc) ==> Updates(decode, doc, current, n) == 0
    decreases n
  {
    if n > 0 {
      var doc' := AfterCheck(decode, doc, current);
      OneUpdateSettlesExactly(decode, doc, current);
      UpdatesOverTime(decode, doc', current, n - 1);
      if current.publicIP == [] && doc.publicIP != [] {
        assert doc.publicIP[0] in multiset(doc.publicIP);
      }
    }
  }
}
