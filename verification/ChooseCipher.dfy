/** The server's cipher choice: one pass over a preference list with equal-preference groups. */
module ChooseCipher {
  import opened Bytes

  datatype Cipher = Cipher(id: nat, minVersion: nat, maxVersion: nat, keyExchange: bv32, authentication: bv32)

  /** What the server configuration and the protocol version allow. */
  datatype Support = Support(version: nat, keyExchange: bv32, authentication: bv32)

  /** Ciphers with one flag each: set where the cipher is not the last of its group. No flags: no groups. */
  datatype Preference = Preference(ciphers: seq<Cipher>, inGroup: Option<seq<bool>>) {
    predicate Valid() {
      inGroup.Some? ==> |inGroup.value| == |ciphers|
    }

    /** Whether cipher `i` has a successor in its group. */
    predicate Continues(i: nat)
      requires Valid() && i < |ciphers|
    {
      inGroup.Some? && inGroup.value[i]
    }
  }

  predicate Supported(c: Cipher, s: Support) {
    && c.minVersion <= s.version <= c.maxVersion
    && c.keyExchange & s.keyExchange != 0
    && c.authentication & s.authentication != 0
  }

  predicate Acceptable(c: Cipher, s: Support, allow: seq<Cipher>) {
    Supported(c, s) && c in allow
  }

  /** The position of the first occurrence of `c`. */
  function IndexOf(allow: seq<Cipher>, c: Cipher): (k: nat)
    requires c in allow
    ensures k < |allow| && allow[k] == c && c !in allow[..k]
  {
    if allow[0] == c then 0
    else
      var k := IndexOf(allow[1..], c) + 1;
      assert allow[..k] == [allow[0]] + allow[1..][..k - 1];
      k
  }

  // --- The optimum ------------------------------------------------------------------------------

  /** Positions `i` to `j` belong to one group. */
  ghost predicate OneGroup(p: Preference, i: nat, j: nat)
    requires p.Valid() && i <= j < |p.ciphers|
  {
    forall k :: i <= k < j ==> p.Continues(k)
  }

  ghost predicate SameGroup(p: Preference, i: nat, j: nat)
    requires p.Valid() && i < |p.ciphers| && j < |p.ciphers|
  {
    if i <= j then OneGroup(p, i, j) else OneGroup(p, j, i)
  }

  /** The group of position `i` has a last element. */
  ghost predicate Terminated(p: Preference, i: nat)
    requires p.Valid() && i < |p.ciphers|
  {
    exists e :: i <= e < |p.ciphers| && !p.Continues(e)
  }

  ghost predicate Candidate(p: Preference, s: Support, allow: seq<Cipher>, i: int)
    requires p.Valid()
  {
    0 <= i < |p.ciphers| && Acceptable(p.ciphers[i], s, allow)
  }

  /** Position `k` of `allow` is the smallest among the acceptable ciphers of the group of `i`, and no earlier group has
      an acceptable cipher. */
  ghost predicate Optimal(p: Preference, s: Support, allow: seq<Cipher>, i: nat, k: nat)
    requires p.Valid() && i < |p.ciphers|
  {
    && Candidate(p, s, allow, i) && k == IndexOf(allow, p.ciphers[i])
    && forall j :: Candidate(p, s, allow, j) ==>
         if SameGroup(p, i, j) then k <= IndexOf(allow, p.ciphers[j]) else i < j
  }

  /** Every list whose last flag is clear ends its last group, and no other nonempty list does. */
  lemma LastFlagDecides(p: Preference)
    requires p.Valid() && p.ciphers != []
    ensures (forall i :: 0 <= i < |p.ciphers| ==> Terminated(p, i)) <==> !p.Continues(|p.ciphers| - 1)
  {
    var last := |p.ciphers| - 1;
    if p.Continues(last) {
      assert !Terminated(p, last);
    } else {
      forall i | 0 <= i < |p.ciphers| ensures Terminated(p, i) {
        assert i <= last && !p.Continues(last);
      }
    }
  }

  /** The optimum is unique as a cipher. */
  lemma OptimumIsUnique(p: Preference, s: Support, allow: seq<Cipher>, i: nat, k: nat, j: nat, l: nat)
    requires p.Valid() && i < |p.ciphers| && j < |p.ciphers|
    requires Optimal(p, s, allow, i, k) && Optimal(p, s, allow, j, l)
    ensures k == l
  {
    assert Candidate(p, s, allow, i) && Candidate(p, s, allow, j);
    assert SameGroup(p, i, j) == SameGroup(p, j, i);
  }

  /** The cipher is for the version, and the server has a key exchange and a certificate type that go with it. */
  ghost predicate Usable(c: Cipher, s: Support) {
    && c.minVersion <= s.version && s.version <= c.maxVersion
    && (c.keyExchange & s.keyExchange) != 0 && (c.authentication & s.authentication) != 0
  }

  lemma SupportedIsUsable(c: Cipher, s: Support)
    ensures Supported(c, s) <==> Usable(c, s)
  {
  }

  lemma AcceptableIsUsable(c: Cipher, s: Support, allow: seq<Cipher>)
    ensures Acceptable(c, s, allow) <==> c in allow && Usable(c, s)
  {
    hide Supported, Usable;
    SupportedIsUsable(c, s);
  }

  /** A candidate exists if and only if both lists have a cipher in common that is usable. */
  lemma CandidatesAreCommon(p: Preference, s: Support, allow: seq<Cipher>)
    requires p.Valid()
    ensures (exists j :: Candidate(p, s, allow, j)) <==> exists c :: c in p.ciphers && c in allow && Usable(c, s)
  {
    hide Acceptable, Usable;
    forall j | 0 <= j < |p.ciphers|
      ensures Candidate(p, s, allow, j) <==> p.ciphers[j] in allow && Usable(p.ciphers[j], s)
    {
      AcceptableIsUsable(p.ciphers[j], s, allow);
    }
  }

  /** The optimum is such a cipher. */
  lemma OptimumIsUsable(p: Preference, s: Support, allow: seq<Cipher>, i: nat, k: nat)
    requires p.Valid() && i < |p.ciphers| && Optimal(p, s, allow, i, k)
    ensures k < |allow| && p.ciphers[i] == allow[k] && Usable(allow[k], s)
  {
    hide Usable, Supported;
    AcceptableIsUsable(p.ciphers[i], s, allow);
  }

  // --- The pass ---------------------------------------------------------------------------------

  /** The choice among the acceptable ciphers of the first group that has one. A group without a last element is never
      considered: with a clear last flag the result is None exactly when no cipher is acceptable. */
  method Choose(p: Preference, s: Support, allow: seq<Cipher>) returns (choice: Option<Cipher>)
    requires p.Valid()
    ensures choice.Some? <==> exists j :: Candidate(p, s, allow, j) && Terminated(p, j)
    ensures choice.Some? ==>
              exists i, k: nat :: 0 <= i < |p.ciphers| && Optimal(p, s, allow, i, k) && choice.value == allow[k]
    ensures (p.ciphers != [] ==> !p.Continues(|p.ciphers| - 1)) ==>
              (choice.None? <==> forall j :: !Candidate(p, s, allow, j))
  {
    hide Scanned, Candidate, Optimal, Terminated, Acceptable;
    var groupMin := -1;
    ghost var start, best := 0, 0;
    var i := 0;
    ScanStarts(p, s, allow);
    while i < |p.ciphers|
      invariant i <= |p.ciphers| && Scanned(p, s, allow, start, i, groupMin, best)
    {
      var c := p.ciphers[i];
      ScanSkips(p, s, allow, start, i, groupMin, best);
      if Acceptable(c, s, allow) {
        InAllow(c, s, allow);
        var index := IndexOf(allow, c);
        ScanTakes(p, s, allow, start, i, groupMin, best);
        if p.Continues(i) {
          if groupMin == -1 || groupMin > index {
            groupMin, best := index, i;
          }
        } else {
          if groupMin != -1 && groupMin < index {
            index := groupMin;
          }
          return Some(allow[index]);
        }
      }
      if p.inGroup.Some? && !p.inGroup.value[i] && groupMin != -1 {
        return Some(allow[groupMin]);
      }
      if !p.Continues(i) {
        start := i + 1;
      }
      i := i + 1;
    }
    NoneEnds(p, s, allow, start, groupMin, best);
    choice := None;
  }

  lemma InAllow(c: Cipher, s: Support, allow: seq<Cipher>)
    requires Acceptable(c, s, allow)
    ensures c in allow
  {
  }

  /** The first `i` ciphers have been looked at, and the group that is open begins at `start`: nothing before it is
      acceptable, and `best` is the best of it so far. */
  ghost predicate Scanned(p: Preference, s: Support, allow: seq<Cipher>, start: nat, i: nat, groupMin: int, best: nat)
    requires p.Valid()
  {
    && start <= i <= |p.ciphers|
    && (start > 0 ==> !p.Continues(start - 1))
    && (forall k :: start <= k < i ==> p.Continues(k))
    && (forall j :: j < start ==> !Candidate(p, s, allow, j))
    && (p.inGroup.None? ==> groupMin == -1)
    && (groupMin == -1 ==> forall j :: Candidate(p, s, allow, j) ==> j >= i)
    && (groupMin != -1 ==>
          && start <= best < i && Candidate(p, s, allow, best) && groupMin == IndexOf(allow, p.ciphers[best])
          && forall j :: Candidate(p, s, allow, j) && j < i ==> groupMin <= IndexOf(allow, p.ciphers[j]))
  }

  /** Position `at` holds the result: the best of its group, and the group is ended. */
  ghost predicate Decides(p: Preference, s: Support, allow: seq<Cipher>, at: nat, k: int)
    requires p.Valid()
  {
    && at < |p.ciphers| && 0 <= k < |allow|
    && Candidate(p, s, allow, at) && Terminated(p, at) && Optimal(p, s, allow, at, k)
  }

  lemma ScanStarts(p: Preference, s: Support, allow: seq<Cipher>)
    requires p.Valid()
    ensures Scanned(p, s, allow, 0, 0, -1, 0)
  {
  }

  /** A cipher that is not acceptable. */
  lemma ScanSkips(p: Preference, s: Support, allow: seq<Cipher>, start: nat, i: nat, groupMin: int, best: nat)
    requires p.Valid() && Scanned(p, s, allow, start, i, groupMin, best) && i < |p.ciphers|
    ensures groupMin != -1 ==> p.inGroup.Some?
    ensures !Acceptable(p.ciphers[i], s, allow) ==>
              if p.Continues(i) then Scanned(p, s, allow, start, i + 1, groupMin, best)
              else if groupMin == -1 then Scanned(p, s, allow, i + 1, i + 1, groupMin, best)
              else Decides(p, s, allow, best, groupMin)
  {
    hide Acceptable, Optimal, Terminated;
    assert Candidate(p, s, allow, i) <==> Acceptable(p.ciphers[i], s, allow);
    if !Acceptable(p.ciphers[i], s, allow) && !p.Continues(i) && groupMin != -1 {
      EndsHere(p, s, allow, start, i, best, groupMin);
    }
  }

  /** An acceptable cipher. */
  lemma ScanTakes(p: Preference, s: Support, allow: seq<Cipher>, start: nat, i: nat, groupMin: int, best: nat)
    requires p.Valid() && Scanned(p, s, allow, start, i, groupMin, best) && i < |p.ciphers|
    requires p.ciphers[i] in allow && Acceptable(p.ciphers[i], s, allow)
    ensures var index := IndexOf(allow, p.ciphers[i]);
            if p.Continues(i) then
              if groupMin == -1 || groupMin > index then Scanned(p, s, allow, start, i + 1, index, i)
              else Scanned(p, s, allow, start, i + 1, groupMin, best)
            else
              if groupMin != -1 && groupMin < index then Decides(p, s, allow, best, groupMin)
              else Decides(p, s, allow, i, index)
  {
    hide Acceptable, Optimal, Terminated;
    assert Candidate(p, s, allow, i);
    var index := IndexOf(allow, p.ciphers[i]);
    if !p.Continues(i) {
      if groupMin != -1 && groupMin < index {
        EndsHere(p, s, allow, start, i, best, groupMin);
      } else {
        EndsHere(p, s, allow, start, i, i, index);
      }
    }
  }

  /** At the end of the list a group that is still open is never considered. */
  lemma NoneEnds(p: Preference, s: Support, allow: seq<Cipher>, start: nat, groupMin: int, best: nat)
    requires p.Valid() && Scanned(p, s, allow, start, |p.ciphers|, groupMin, best)
    ensures forall j :: Candidate(p, s, allow, j) ==> !Terminated(p, j)
    ensures (p.ciphers != [] ==> !p.Continues(|p.ciphers| - 1)) ==> forall j :: !Candidate(p, s, allow, j)
  {
    hide Acceptable;
    if p.ciphers != [] && !p.Continues(|p.ciphers| - 1) {
      assert start == |p.ciphers|;
    }
  }

  /** The group from `start` ends at `end` and `at` is its best candidate. */
  lemma EndsHere(p: Preference, s: Support, allow: seq<Cipher>, start: nat, end: nat, at: nat, index: nat)
    requires p.Valid() && start <= at <= end < |p.ciphers| && !p.Continues(end)
    requires start > 0 ==> !p.Continues(start - 1)
    requires forall k :: start <= k < end ==> p.Continues(k)
    requires forall j :: j < start ==> !Candidate(p, s, allow, j)
    requires Candidate(p, s, allow, at) && index == IndexOf(allow, p.ciphers[at])
    requires forall j :: Candidate(p, s, allow, j) && j <= end ==> index <= IndexOf(allow, p.ciphers[j])
    ensures Optimal(p, s, allow, at, index) && Terminated(p, at)
  {
    forall j | Candidate(p, s, allow, j)
      ensures if SameGroup(p, at, j) then index <= IndexOf(allow, p.ciphers[j]) else at < j
    {
      if j > end {
        assert !OneGroup(p, at, j) by { assert at <= end < j && !p.Continues(end); }
      }
    }
  }

  /** `ssl3_choose_cipher`: the server's list with its groups decides, or the client's list without groups. */
  method ChooseForClient(client: Option<seq<Cipher>>, server: Preference, serverPreference: bool, s: Support)
    returns (choice: Option<Cipher>)
    requires server.Valid()
    ensures client.None? ==> choice.None?
    ensures client.Some? && !serverPreference ==>
              (choice.None? <==> forall j :: !Candidate(Preference(client.value, None), s, server.ciphers, j))
    ensures client.Some? && !serverPreference && choice.Some? ==>
              exists j :: Candidate(Preference(client.value, None), s, server.ciphers, j)
                && choice.value == client.value[j]
                && forall i :: 0 <= i < j ==> !Candidate(Preference(client.value, None), s, server.ciphers, i)
    ensures client.Some? && serverPreference ==>
              (choice.Some? <==> exists j :: Candidate(server, s, client.value, j) && Terminated(server, j))
    ensures client.Some? && serverPreference && choice.Some? ==>
              exists i, k: nat ::
                && 0 <= i < |server.ciphers| && Optimal(server, s, client.value, i, k)
                && choice.value == client.value[k]
  {
    if client.None? {
      return None;
    }
    if serverPreference {
      choice := Choose(server, s, client.value);
    } else {
      var p := Preference(client.value, None);
      choice := Choose(p, s, server.ciphers);
      if choice.Some? {
        ghost var i: nat, k: nat :|
          0 <= i < |p.ciphers| && Optimal(p, s, server.ciphers, i, k) && choice.value == server.ciphers[k];
        forall j | 0 <= j < i ensures !SameGroup(p, i, j) {
          assert !p.Continues(j);
        }
      }
    }
  }
}
