/** The rotating key history (src/daemon/overlay/KeyProvider.cpp). Times are in seconds. */
module KeyHistory {

  import opened Prelude

  type Th = string

  datatype KeyInfo = KeyInfo(th: Th, expiration: int, lose: int)

  /** overlay.key_provider.history_size and overlay.key_provider.renew_interval. */
  datatype Config = Config(historySize: Word, renewInterval: Word)

  /** unsigned int arithmetic: both results wrap. */
  function MaxHistory(c: Config): Word { Increment(c.historySize) }
  function LoseInterval(c: Config): Word { (c.renewInterval * MaxHistory(c)) % U32 }

  /** One call of renewKeys: when it read the clock, and the TH of the key it generated. */
  datatype Renewal = Renewal(now: int, th: Th)

  function Info(c: Config, r: Renewal): KeyInfo {
    KeyInfo(r.th, r.now + c.renewInterval, r.now + LoseInterval(c))
  }

  function PushKey(c: Config, history: seq<KeyInfo>, r: Renewal): seq<KeyInfo> {
    var h := [Info(c, r)] + history;
    if |h| > MaxHistory(c) then h[..|h| - 1] else h
  }

  /** The history after a run of renewals. */
  function Run(c: Config, rs: seq<Renewal>): seq<KeyInfo> {
    if rs == [] then [] else PushKey(c, Run(c, rs[..|rs| - 1]), rs[|rs| - 1])
  }

  /** getKeyInfo(th): the newest entry with that TH. */
  function Lookup(history: seq<KeyInfo>, th: Th): Option<KeyInfo> {
    if history == [] then None else if history[0].th == th then Some(history[0]) else Lookup(history[1..], th)
  }

  /** getKeyInfo(offset). */
  function At(history: seq<KeyInfo>, offset: nat): Option<KeyInfo> {
    if offset < |history| then Some(history[offset]) else None
  }

  class KeyProvider {
    const config: Config
    var history: seq<KeyInfo>

    /** The constructor waits until the first key has been generated. */
    constructor (config: Config, now: int, th: Th)
      ensures this.config == config && history == Run(config, [Renewal(now, th)])
    {
      this.config := config;
      history := [];
      new;
      RenewKeys(now, th);
      assert [Renewal(now, th)][..0] == [];
    }

    method RenewKeys(now: int, th: Th)
      modifies this
      ensures history == PushKey(config, old(history), Renewal(now, th))
    {
      var newInfo := KeyInfo(th, now + config.renewInterval, now + LoseInterval(config));
      history := [newInfo] + history;
      if |history| > MaxHistory(config) {
        history := history[..|history| - 1];
      }
    }

    method GetKeyInfo(offset: nat) returns (r: Option<KeyInfo>)
      ensures r == At(history, offset)
    {
      r := if offset < |history| then Some(history[offset]) else None;
    }

    method GetKeyInfoByTh(th: Th) returns (r: Option<KeyInfo>)
      ensures r == Lookup(history, th)
    {
      var i := 0;
      while i < |history| && history[i].th != th
        invariant 0 <= i <= |history| && Lookup(history, th) == Lookup(history[i..], th)
      {
        i := i + 1;
      }
      r := if i < |history| then Some(history[i]) else None;
    }
  }

  // ----- what the history holds -----

  /** The limit the configuration asks for, as far as 32 bits carry it. */
  ghost function Limit(c: Config): nat {
    (c.historySize + 1) % U32
  }

  lemma LimitIsMax(c: Config)
    ensures MaxHistory(c) == Limit(c)
    ensures LoseInterval(c) == (c.renewInterval * (c.historySize + 1)) % U32
  {
    if c.historySize + 1 == U32 {
      Multiple(c.renewInterval);
    }
  }

  lemma {:induction false} Multiple(r: nat)
    ensures (r * U32) % U32 == 0
  {
    if r > 0 {
      Multiple(r - 1);
      assert r * U32 == (r - 1) * U32 + U32;
    }
  }

  /** After every run: the newest keys, as many as the limit allows, newest first. */
  lemma {:induction false} NewestFirst(c: Config, rs: seq<Renewal>)
    ensures var h := Run(c, rs);
            |h| == (if |rs| < Limit(c) then |rs| else Limit(c)) &&
            forall j :: 0 <= j < |h| ==> h[j] == Info(c, rs[|rs| - 1 - j])
  {
    LimitIsMax(c);
    if rs != [] {
      NewestFirst(c, rs[..|rs| - 1]);
    }
  }

  /**
   The times of every key in the history, after every run: it expires renew_interval after it was
   generated and is lost renew_interval * (history_size + 1) after, that product taken modulo 2^32.
   */
  lemma KeyTimes(c: Config, rs: seq<Renewal>, j: nat)
    requires j < |Run(c, rs)|
    ensures j < |rs|
    ensures var k, r := Run(c, rs)[j], rs[|rs| - 1 - j];
            k.th == r.th && k.expiration - r.now == c.renewInterval &&
            k.lose - r.now == (c.renewInterval * (c.historySize + 1)) % U32
  {
    NewestFirst(c, rs);
    LimitIsMax(c);
  }

  /** Renewed on the dot, every key in the history but the current one expired just when the next was generated. */
  lemma ExpiredOnTheDot(c: Config, rs: seq<Renewal>, j: nat)
    requires (forall k :: 0 < k < |rs| ==> rs[k].now == rs[k - 1].now + c.renewInterval) && 0 < j < |Run(c, rs)|
    ensures j < |rs| && Run(c, rs)[j].expiration == rs[|rs| - j].now
  {
    NewestFirst(c, rs);
  }

  /** After every run, getKeyInfo(offset) is the offset-newest key while the history reaches that far, and none beyond. */
  lemma KeyAtOffset(c: Config, rs: seq<Renewal>, offset: nat)
    ensures At(Run(c, rs), offset) ==
            if offset < |rs| && offset < Limit(c) then Some(Info(c, rs[|rs| - 1 - offset])) else None
  {
    NewestFirst(c, rs);
  }

  /** The timer lets renew_interval pass between two renewals. */
  ghost predicate Spaced(c: Config, rs: seq<Renewal>) {
    forall i :: 0 < i < |rs| ==> rs[i - 1].now + c.renewInterval <= rs[i].now
  }

  lemma {:induction false} SpacedFar(c: Config, rs: seq<Renewal>, i: nat, d: nat)
    requires Spaced(c, rs) && i + d < |rs|
    ensures rs[i].now + c.renewInterval * d <= rs[i + d].now
  {
    if d > 0 {
      SpacedFar(c, rs, i, d - 1);
      OneMore(c.renewInterval, d);
    }
  }

  lemma {:induction false} SpacedRises(c: Config, rs: seq<Renewal>, i: nat, j: nat)
    requires Spaced(c, rs) && i <= j < |rs|
    ensures rs[i].now <= rs[j].now
  {
    if i < j {
      SpacedRises(c, rs, i, j - 1);
    }
  }

  /** A key that has dropped out of the history had reached its lose time when it did. */
  lemma EvictedAfterLoss(c: Config, rs: seq<Renewal>, i: nat)
    requires Spaced(c, rs) && i + Limit(c) < |rs|
    ensures Info(c, rs[i]).lose <= rs[i + Limit(c)].now <= rs[|rs| - 1].now
  {
    LimitIsMax(c);
    SpacedFar(c, rs, i, MaxHistory(c));
    SpacedRises(c, rs, i + MaxHistory(c), |rs| - 1);
    Narrowed(c.renewInterval * MaxHistory(c));
  }

  /** At every time after every run of spaced renewals, no key but the current one is unexpired. */
  lemma OnlyCurrentUnexpired(c: Config, rs: seq<Renewal>, j: nat, now: int)
    requires Spaced(c, rs) && j < |Run(c, rs)| && rs != [] && rs[|rs| - 1].now <= now < Run(c, rs)[j].expiration
    ensures j == 0
  {
    NewestFirst(c, rs);
    if j > 0 {
      SpacedFar(c, rs, |rs| - 1 - j, 1);
      SpacedRises(c, rs, |rs| - j, |rs| - 1);
      assert false;
    }
  }

  ghost predicate DistinctThs(rs: seq<Renewal>) {
    forall i, j :: 0 <= i < j < |rs| ==> rs[i].th != rs[j].th
  }

  lemma {:induction false} LookupFinds(h: seq<KeyInfo>, j: nat)
    requires j < |h| && forall i :: 0 <= i < j ==> h[i].th != h[j].th
    ensures Lookup(h, h[j].th) == Some(h[j])
  {
    if j > 0 {
      LookupFinds(h[1..], j - 1);
    }
  }

  lemma {:induction false} LookupMember(h: seq<KeyInfo>, th: Th)
    ensures Lookup(h, th).Some? ==> Lookup(h, th).value in h && Lookup(h, th).value.th == th
  {
    if h != [] {
      LookupMember(h[1..], th);
    }
  }

  /**
   At every time after every run of spaced renewals: a key generated in the run and not yet lost is
   found by its TH, with its own times; and nothing is found for a TH that was never generated.
   */
  lemma FoundUntilLost(c: Config, rs: seq<Renewal>, i: nat, now: int, th: Th)
    requires Spaced(c, rs) && DistinctThs(rs) && i < |rs| && rs[|rs| - 1].now <= now
    ensures now < Info(c, rs[i]).lose ==> Lookup(Run(c, rs), rs[i].th) == Some(Info(c, rs[i]))
    ensures (forall k :: 0 <= k < |rs| ==> rs[k].th != th) ==> Lookup(Run(c, rs), th) == None
  {
    var h := Run(c, rs);
    NewestFirst(c, rs);
    if now < Info(c, rs[i]).lose {
      if i + Limit(c) < |rs| {
        EvictedAfterLoss(c, rs, i);
        assert false;
      }
      LookupFinds(h, |rs| - 1 - i);
    }
    LookupMember(h, th);
  }

  /** The bound is tight: renewed on the dot, a key goes at its lose time if and only if the interval did not wrap. */
  lemma EvictedOnTheDot(c: Config, rs: seq<Renewal>, i: nat)
    requires (forall k :: 0 < k < |rs| ==> rs[k].now == rs[k - 1].now + c.renewInterval) && i + Limit(c) < |rs|
    ensures rs[i + Limit(c)].now == Info(c, rs[i]).lose <==> c.renewInterval * Limit(c) < U32
  {
    LimitIsMax(c);
    OnTheDot(c, rs, i, MaxHistory(c));
    Narrowed(c.renewInterval * MaxHistory(c));
  }

  lemma {:induction false} OnTheDot(c: Config, rs: seq<Renewal>, i: nat, d: nat)
    requires (forall k :: 0 < k < |rs| ==> rs[k].now == rs[k - 1].now + c.renewInterval) && i + d < |rs|
    ensures rs[i + d].now == rs[i].now + c.renewInterval * d
  {
    if d > 0 {
      OnTheDot(c, rs, i, d - 1);
      OneMore(c.renewInterval, d);
    }
  }

  /** Once a key has been generated the current one exists, unless history_size is 2^32 - 1: then none is ever kept. */
  lemma CurrentKeyExactly(c: Config, rs: seq<Renewal>)
    requires rs != []
    ensures At(Run(c, rs), 0) == Some(Info(c, rs[|rs| - 1])) <==> c.historySize != U32 - 1
    ensures c.historySize == U32 - 1 ==> Run(c, rs) == []
  {
    KeyAtOffset(c, rs, 0);
    NewestFirst(c, rs);
  }
}
