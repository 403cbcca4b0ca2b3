/**
 The windowed popularity counter of the chat-to-speech bot. A map from the
 lower-cased text of a chat message to the distinct users who sent it and the
 time the entry was created. Every incoming server message first updates the
 map (only chat messages do), then a maintenance pass visits every entry in key
 order: it speaks the texts that enough users sent, and removes those and the
 entries that have lived too long.

 Time is a reading of a monotonic clock in nanoseconds; ages are whole seconds
 (1_000_000_000 nanoseconds each).
 */
module Messages {
  import opened KeyOrder

  /** How many users have to send the same text before it is spoken (`USER_THRESHOLD`). */
  const UserThreshold: nat := 10

  /** How many seconds an entry lives (`MESSAGE_LIFETIME`). */
  const MessageLifetime: nat := 10

  /** One entry of the map: the users who sent the text, and when the entry was made. */
  datatype MessageData = MessageData(users: seq<string>, modified: nat)

  /** What the chat connection delivers: a chat message, or anything else. */
  datatype ServerMessage =
    | Privmsg(senderId: string, messageText: string)
    | Other

  // ---------------------------------------------------------------------------
  // Lower-casing (ASCII letters only)

  function LowerChar(c: char): char
  {
    if 'A' <= c <= 'Z' then (c as int - 'A' as int + 'a' as int) as char else c
  }

  /** The key a text is filed under: every ASCII capital replaced by its small letter. */
  function ToLower(s: string): (r: string)
    ensures |r| == |s|
    ensures forall i :: 0 <= i < |s| ==> r[i] == LowerChar(s[i])
    decreases |s|
  {
    if s == [] then [] else [LowerChar(s[0])] + ToLower(s[1..])
  }

  /**
   The two texts have the same characters except that, at some places, an ASCII
   capital in one stands where the other has the same letter in small case.
   */
  predicate DifferOnlyInCase(a: string, b: string)
  {
    && |a| == |b|
    && forall i :: 0 <= i < |a| ==>
         || a[i] == b[i]
         || ('A' <= a[i] <= 'Z' && b[i] as int == a[i] as int + 32)
         || ('A' <= b[i] <= 'Z' && a[i] as int == b[i] as int + 32)
  }

  /** Texts are filed under the same key exactly when they differ only in case. */
  lemma SameKeyIffCase(a: string, b: string)
    ensures ToLower(a) == ToLower(b) <==> DifferOnlyInCase(a, b)
  {
    if ToLower(a) == ToLower(b) {
      forall i | 0 <= i < |a|
        ensures || a[i] == b[i]
                || ('A' <= a[i] <= 'Z' && b[i] as int == a[i] as int + 32)
                || ('A' <= b[i] <= 'Z' && a[i] as int == b[i] as int + 32)
      {
        assert LowerChar(a[i]) == ToLower(a)[i] == ToLower(b)[i] == LowerChar(b[i]);
      }
    }
    if DifferOnlyInCase(a, b) {
      forall i | 0 <= i < |a|
        ensures ToLower(a)[i] == ToLower(b)[i]
      {
        assert LowerChar(a[i]) == LowerChar(b[i]);
      }
    }
  }

  /** "Hello" and "hELLO" are one entry. */
  lemma HelloIsOneEntry(m: map<string, MessageData>, now: nat, sender: string)
    ensures Update(m, now, Privmsg(sender, "Hello")) == Update(m, now, Privmsg(sender, "hELLO"))
  {
    UpdateIgnoresCase(m, now, sender, "Hello", "hELLO");
  }

  /** A key is already lower case: lower-casing it again changes nothing. */
  lemma ToLowerIdempotent(s: string)
    ensures ToLower(ToLower(s)) == ToLower(s)
  {
  }

  // ---------------------------------------------------------------------------
  // Entries and the map

  predicate NoDuplicates(s: seq<string>)
  {
    forall i, j :: 0 <= i < j < |s| ==> s[i] != s[j]
  }

  /** `MessageData::new`: an entry holding one user, stamped with the current time. */
  function NewEntry(user: string, now: nat): (d: MessageData)
    ensures d.users == [user] && d.modified == now
  {
    MessageData([user], now)
  }

  /** What holds of every map the counter builds. */
  ghost predicate WellFormed(m: map<string, MessageData>)
  {
    forall k :: k in m ==> ToLower(k) == k && |m[k].users| > 0 && NoDuplicates(m[k].users)
  }

  /** The update a server message makes to the map before the maintenance pass. */
  function Update(m: map<string, MessageData>, now: nat, msg: ServerMessage): (r: map<string, MessageData>)
    ensures msg.Other? ==> r == m
    ensures msg.Privmsg? ==> r.Keys == m.Keys + {ToLower(msg.messageText)}
    ensures forall k :: k in m ==> m[k].users <= r[k].users && r[k].modified == m[k].modified
    ensures forall k :: k in m && |r[k].users| != |m[k].users| ==>
      msg.Privmsg? && k == ToLower(msg.messageText) && r[k].users == m[k].users + [msg.senderId]
  {
    match msg
    case Other => m
    case Privmsg(sender, text) =>
      var key := ToLower(text);
      if key !in m then m[key := NewEntry(sender, now)]
      else if sender in m[key].users then m
      else m[key := m[key].(users := m[key].users + [sender])]
  }

  // ---------------------------------------------------------------------------
  // The maintenance pass

  /** `modified.elapsed().as_secs()`: whole seconds since `since`, never negative. */
  function AgeSecs(now: nat, since: nat): (r: nat)
    ensures since <= now ==> r * 1_000_000_000 <= now - since < (r + 1) * 1_000_000_000
    ensures now < since ==> r == 0
  {
    if now <= since then 0 else (now - since) / 1_000_000_000
  }

  predicate Popular(d: MessageData, threshold: nat)
  {
    |d.users| >= threshold
  }

  predicate Expired(d: MessageData, now: nat, lifetime: nat)
  {
    AgeSecs(now, d.modified) >= lifetime
  }

  /** The keys of `ks`, in order, whose entries in `m` are popular. */
  function PopularKeys(m: map<string, MessageData>, ks: seq<string>, threshold: nat): (r: seq<string>)
    ensures forall x :: x in r <==> x in ks && x in m && Popular(m[x], threshold)
    decreases |ks|
  {
    if ks == [] then []
    else
      var last := ks[|ks| - 1];
      PopularKeys(m, ks[..|ks| - 1], threshold)
        + (if last in m && Popular(m[last], threshold) then [last] else [])
  }

  /** The texts the pass hands to the speech engine, in the order it visits them. */
  ghost function Spoken(m: map<string, MessageData>, threshold: nat): (r: seq<string>)
    ensures forall k :: k in r <==> k in m && |m[k].users| >= threshold
  {
    PopularKeys(m, Ordered(m.Keys), threshold)
  }

  /** The pass marks key `k` of `m` for removal. */
  predicate Doomed(m: map<string, MessageData>, k: string, threshold: nat, lifetime: nat, now: nat)
  {
    k in m && (Popular(m[k], threshold) || Expired(m[k], now, lifetime))
  }

  /** The map the pass leaves: the entries neither popular nor expired. */
  function Survivors(m: map<string, MessageData>, threshold: nat, lifetime: nat, now: nat): (r: map<string, MessageData>)
    ensures r.Keys <= m.Keys
    ensures forall k :: k in r ==> r[k] == m[k] && |r[k].users| < threshold && AgeSecs(now, r[k].modified) < lifetime
    ensures forall k :: k in m && !Doomed(m, k, threshold, lifetime, now) ==> k in r
  {
    map k | k in m && !Popular(m[k], threshold) && !Expired(m[k], now, lifetime) :: m[k]
  }

  // ---------------------------------------------------------------------------
  // The counter

  class Counter {
    const threshold: nat
    const lifetime: nat
    var messages: map<string, MessageData>

    ghost predicate Valid()
      reads this
    {
      WellFormed(messages)
    }

    /** An empty counter with the given threshold and lifetime in seconds. */
    constructor (threshold: nat, lifetime: nat)
      ensures Valid()
      ensures this.threshold == threshold && this.lifetime == lifetime
      ensures messages == map[]
    {
      this.threshold := threshold;
      this.lifetime := lifetime;
      messages := map[];
    }

    /** The counter as the program configures it. */
    constructor Default()
      ensures Valid()
      ensures threshold == UserThreshold && lifetime == MessageLifetime
      ensures messages == map[]
    {
      threshold := UserThreshold;
      lifetime := MessageLifetime;
      messages := map[];
    }

    /** Files a chat message under its lower-cased text; other messages change nothing. */
    method Receive(now: nat, msg: ServerMessage)
      requires Valid()
      modifies this
      ensures Valid()
      ensures messages == Update(old(messages), now, msg)
    {
      UpdateWellFormed(messages, now, msg);
      match msg {
        case Privmsg(sender, text) =>
          var key := ToLower(text);
          if key !in messages {
            messages := messages[key := NewEntry(sender, now)];
          } else {
            var users := messages[key].users;
            if sender !in users {
              messages := messages[key := messages[key].(users := users + [sender])];
            }
          }
        case Other =>
      }
    }

    /**
     The first half of the maintenance pass: visits the entries in key order,
     speaks the popular ones, and marks them and the expired ones for removal.
     A key that is both is marked twice.
     */
    method Scan(now: nat) returns (spoken: seq<string>, deleted: seq<string>)
      ensures spoken == Spoken(messages, threshold)
      ensures forall k :: k in deleted <==> Doomed(messages, k, threshold, lifetime, now)
    {
      var m := messages;
      var pending := m.Keys;
      ghost var visited: seq<string> := [];
      deleted, spoken := [], [];
      while pending != {}
        invariant pending <= m.Keys
        invariant visited + Ordered(pending) == Ordered(m.Keys)
        invariant spoken == PopularKeys(m, visited, threshold)
        invariant forall k :: k in deleted <==> k in visited && Doomed(m, k, threshold, lifetime, now)
        decreases pending
      {
        LeastExists(pending);
        var k :| IsLeast(k, pending);
        OrderedStep(m.Keys, visited, pending, k);
        ghost var before := deleted;
        var data := m[k];
        if |data.users| >= threshold {
          deleted := deleted + [k];
          spoken := spoken + [k];
        }
        if AgeSecs(now, data.modified) >= lifetime {
          deleted := deleted + [k];
        }
        MarkStep(before, deleted, k, Doomed(m, k, threshold, lifetime, now));
        PopularKeysSnoc(m, visited, k, threshold);
        visited := visited + [k];
        pending := pending - {k};
      }
      assert visited == Ordered(m.Keys);
    }

    /** The second half of the maintenance pass: removes every listed key. */
    method RemoveAll(deleted: seq<string>)
      modifies this
      ensures messages == old(messages) - set k | k in deleted
    {
      ghost var m := messages;
      for i := 0 to |deleted|
        invariant messages == m - set k | k in deleted[..i]
      {
        assert deleted[..i + 1] == deleted[..i] + [deleted[i]];
        messages := messages - {deleted[i]};
      }
      assert deleted[..|deleted|] == deleted;
    }

    /**
     The maintenance pass: speaks the popular entries in key order, then drops
     them and the expired ones.
     */
    method Sweep(now: nat) returns (spoken: seq<string>)
      requires Valid()
      modifies this
      ensures Valid()
      ensures spoken == Spoken(old(messages), threshold)
      ensures messages == Survivors(old(messages), threshold, lifetime, now)
    {
      var deleted;
      spoken, deleted := Scan(now);
      RemoveAll(deleted);
      SurvivorsAreRest(old(messages), threshold, lifetime, now, deleted);
      SurvivorsWellFormed(old(messages), threshold, lifetime, now);
    }

    /** One incoming server message: the update, then the maintenance pass. */
    method Ingest(now: nat, msg: ServerMessage) returns (spoken: seq<string>)
      requires Valid()
      modifies this
      ensures Valid()
      ensures spoken == Spoken(Update(old(messages), now, msg), threshold)
      ensures messages == Survivors(Update(old(messages), now, msg), threshold, lifetime, now)
    {
      Receive(now, msg);
      spoken := Sweep(now);
    }
  }

  // ---------------------------------------------------------------------------
  // Properties of the update

  /** A text with no entry yet gets one holding just its sender, made now. */
  lemma UpdateNewText(m: map<string, MessageData>, now: nat, sender: string, text: string)
    requires ToLower(text) !in m
    ensures var r := Update(m, now, Privmsg(sender, text));
      && r.Keys == m.Keys + {ToLower(text)}
      && r[ToLower(text)] == MessageData([sender], now)
      && forall k :: k in m ==> r[k] == m[k]
  {
  }

  /**
   A text with an entry: a repeat sender changes nothing, a new sender is added
   at the end; the creation time is never refreshed.
   */
  lemma UpdateKnownText(m: map<string, MessageData>, now: nat, sender: string, text: string)
    requires ToLower(text) in m
    ensures var r := Update(m, now, Privmsg(sender, text));
      var key := ToLower(text);
      && r.Keys == m.Keys
      && r[key].modified == m[key].modified
      && r[key].users == (if sender in m[key].users then m[key].users else m[key].users + [sender])
      && forall k :: k in m && k != key ==> r[k] == m[k]
  {
  }

  /** Chat messages that differ only in case update the same entry in the same way. */
  lemma UpdateIgnoresCase(m: map<string, MessageData>, now: nat, sender: string, a: string, b: string)
    requires DifferOnlyInCase(a, b)
    ensures Update(m, now, Privmsg(sender, a)) == Update(m, now, Privmsg(sender, b))
  {
    SameKeyIffCase(a, b);
  }

  /** A server message that is not a chat message leaves the map as it was. */
  lemma UpdateOther(m: map<string, MessageData>, now: nat)
    ensures Update(m, now, Other) == m
  {
  }

  /** The update keeps every key lower case and every user list non-empty and free of repeats. */
  lemma UpdateWellFormed(m: map<string, MessageData>, now: nat, msg: ServerMessage)
    requires WellFormed(m)
    ensures WellFormed(Update(m, now, msg))
  {
  }

  /** No entry loses a user, and no entry's creation time changes. */
  lemma UpdateKeepsHistory(m: map<string, MessageData>, now: nat, msg: ServerMessage)
    ensures var r := Update(m, now, msg);
      forall k :: k in m ==> k in r && m[k].users <= r[k].users && r[k].modified == m[k].modified
  {
  }

  // ---------------------------------------------------------------------------
  // Properties of the maintenance pass

  /** No entry left after the pass is popular or expired. */
  lemma SurvivorsSettled(m: map<string, MessageData>, threshold: nat, lifetime: nat, now: nat)
    ensures var r := Survivors(m, threshold, lifetime, now);
      forall k :: k in r ==> |r[k].users| < threshold && AgeSecs(now, r[k].modified) < lifetime
  {
  }

  /**
   The pass keeps exactly the entries that are neither popular nor expired,
   unchanged, and adds no key.
   */
  lemma SurvivorsUntouched(m: map<string, MessageData>, threshold: nat, lifetime: nat, now: nat)
    ensures var r := Survivors(m, threshold, lifetime, now);
      && r.Keys <= m.Keys
      && (forall k :: k in r ==> r[k] == m[k])
      && forall k :: k in m ==>
           (k in r <==> |m[k].users| < threshold && AgeSecs(now, m[k].modified) < lifetime)
  {
  }

  /** One visit of the pass: the least pending key moves to the visited ones. */
  lemma OrderedStep(keys: set<string>, visited: seq<string>, pending: set<string>, k: string)
    requires IsLeast(k, pending)
    requires visited + Ordered(pending) == Ordered(keys)
    ensures (visited + [k]) + Ordered(pending - {k}) == Ordered(keys)
    ensures k in keys
  {
    OrderedUnfold(pending, k);
    assert k in Ordered(keys);
  }

  /** Visiting one more key speaks it after the others exactly when it is popular. */
  lemma PopularKeysSnoc(m: map<string, MessageData>, ks: seq<string>, k: string, threshold: nat)
    ensures PopularKeys(m, ks + [k], threshold)
      == PopularKeys(m, ks, threshold) + (if k in m && Popular(m[k], threshold) then [k] else [])
  {
    assert (ks + [k])[..|ks|] == ks;
  }

  /** The marks one visit adds: the visited key, once or twice, exactly when it is doomed. */
  lemma MarkStep(before: seq<string>, after: seq<string>, k: string, doomed: bool)
    requires after == before || after == before + [k] || after == before + [k] + [k]
    requires doomed <==> |after| > |before|
    ensures forall x :: x in after <==> x in before || (x == k && doomed)
  {
  }

  /** Removing every marked key leaves exactly the survivors. */
  lemma SurvivorsAreRest(m: map<string, MessageData>, threshold: nat, lifetime: nat, now: nat, deleted: seq<string>)
    requires forall k :: k in deleted <==> Doomed(m, k, threshold, lifetime, now)
    ensures m - (set k | k in deleted) == Survivors(m, threshold, lifetime, now)
  {
  }

  /** The pass keeps the map well formed. */
  lemma SurvivorsWellFormed(m: map<string, MessageData>, threshold: nat, lifetime: nat, now: nat)
    requires WellFormed(m)
    ensures WellFormed(Survivors(m, threshold, lifetime, now))
  {
  }

  /** A text is spoken exactly when its entry had at least `threshold` users, expired or not. */
  lemma SpokenExactly(m: map<string, MessageData>, threshold: nat)
    ensures forall k :: k in Spoken(m, threshold) <==> k in m && |m[k].users| >= threshold
  {
  }

  /** Filtering an ascending sequence leaves it ascending. */
  lemma {:induction false} PopularKeysSorted(m: map<string, MessageData>, ks: seq<string>, threshold: nat)
    requires StrictlySorted(ks)
    ensures StrictlySorted(PopularKeys(m, ks, threshold))
    decreases |ks|
  {
    if ks != [] {
      var init := ks[..|ks| - 1];
      var last := ks[|ks| - 1];
      assert StrictlySorted(init) by {
        forall i, j | 0 <= i < j < |init| ensures Less(init[i], init[j]) {
          assert init[i] == ks[i] && init[j] == ks[j];
        }
      }
      PopularKeysSorted(m, init, threshold);
      var head := PopularKeys(m, init, threshold);
      forall x | x in head ensures Less(x, last) {
        var i :| 0 <= i < |init| && init[i] == x;
        assert ks[i] == x;
      }
    }
  }

  /** The spoken texts come in ascending key order, each at most once. */
  lemma SpokenAscending(m: map<string, MessageData>, threshold: nat)
    ensures StrictlySorted(Spoken(m, threshold))
    ensures NoDuplicates(Spoken(m, threshold))
  {
    var s := Spoken(m, threshold);
    OrderedSorted(m.Keys);
    PopularKeysSorted(m, Ordered(m.Keys), threshold);
    forall i, j | 0 <= i < j < |s| ensures s[i] != s[j] {
      LessIrreflexive(s[i]);
    }
  }

  /** A spoken text has no entry after the pass, so its next occurrence starts afresh. */
  lemma SpokenRemoved(m: map<string, MessageData>, threshold: nat, lifetime: nat, now: nat)
    ensures forall k :: k in Spoken(m, threshold) ==> k !in Survivors(m, threshold, lifetime, now)
  {
  }

  /**
   Across one whole step, an entry that is still there kept its creation time
   and every user it had, and a new entry holds one user stamped now.
   */
  lemma StepKeepsHistory(m: map<string, MessageData>, now: nat, msg: ServerMessage,
                         threshold: nat, lifetime: nat)
    ensures var r := Survivors(Update(m, now, msg), threshold, lifetime, now);
      && (forall k :: k in m && k in r ==> m[k].users <= r[k].users && r[k].modified == m[k].modified)
      && forall k :: k in r && k !in m ==> r[k].modified == now && |r[k].users| == 1
  {
  }

  /**
   The user who brings a text's entry up to `threshold` users makes the same
   step speak it and remove it.
   */
  lemma ThresholdReachedSpeaks(m: map<string, MessageData>, threshold: nat, lifetime: nat, now: nat,
                               sender: string, text: string)
    requires ToLower(text) in m
    requires sender !in m[ToLower(text)].users
    requires |m[ToLower(text)].users| + 1 == threshold
    ensures var r := Update(m, now, Privmsg(sender, text));
      && ToLower(text) in Spoken(r, threshold)
      && ToLower(text) !in Survivors(r, threshold, lifetime, now)
  {
  }

  // ---------------------------------------------------------------------------
  // Two runs of three and two steps

  lemma FirstHi(lifetime: nat)
    requires lifetime > 0
    ensures Survivors(Update(map[], 0, Privmsg("u1", "hi")), 3, lifetime, 0) == map["hi" := MessageData(["u1"], 0)]
  {
    assert ToLower("hi") == "hi";
  }

  lemma SecondHi(now: nat, text: string)
    requires ToLower(text) == "hi"
    ensures Update(map["hi" := MessageData(["u1"], 0)], now, Privmsg("u2", text)) == map["hi" := MessageData(["u1", "u2"], 0)]
  {
    assert "u2"[1] != "u1"[1];
    assert ["u1"] + ["u2"] == ["u1", "u2"];
  }

  lemma ThirdHi(now: nat)
    ensures Update(map["hi" := MessageData(["u1", "u2"], 0)], now, Privmsg("u3", "hi"))
      == map["hi" := MessageData(["u1", "u2", "u3"], 0)]
  {
    assert ToLower("hi") == "hi";
    assert "u3"[1] != "u1"[1] && "u3"[1] != "u2"[1];
    assert "u3" !in ["u1", "u2"];
    assert ["u1", "u2"] + ["u3"] == ["u1", "u2", "u3"];
  }

  /** The pass over a map with one key speaks that key alone, or nothing. */
  lemma OneKeySpoken(key: string, d: MessageData, threshold: nat)
    ensures Spoken(map[key := d], threshold) == if Popular(d, threshold) then [key] else []
  {
    var m := map[key := d];
    SpokenExactly(m, threshold);
    SpokenAscending(m, threshold);
    SortedUnique(Spoken(m, threshold), if Popular(d, threshold) then [key] else []);
  }

  /**
   Threshold 3, lifetime 10 s: "hi", "HI", "hi" from three users within one
   second. The third step speaks "hi" and leaves no entry.
   */
  lemma ThreeUsersSpeak()
    ensures var m1 := Survivors(Update(map[], 0, Privmsg("u1", "hi")), 3, 10, 0);
      var m2 := Survivors(Update(m1, 500_000_000, Privmsg("u2", "HI")), 3, 10, 500_000_000);
      var r3 := Update(m2, 1_000_000_000, Privmsg("u3", "hi"));
      && Spoken(r3, 3) == ["hi"]
      && Survivors(r3, 3, 10, 1_000_000_000) == map[]
  {
    FirstHi(10);
    assert ToLower("HI") == "hi";
    SecondHi(500_000_000, "HI");
    var u2 := map["hi" := MessageData(["u1", "u2"], 0)];
    assert AgeSecs(500_000_000, 0) == 0;
    assert Survivors(u2, 3, 10, 500_000_000).Keys == {"hi"};
    ThirdHi(1_000_000_000);
    OneKeySpoken("hi", MessageData(["u1", "u2", "u3"], 0), 3);
  }

  /**
   Threshold 3, lifetime 5 s: "hi" from one user at 0 s and from another at 6 s.
   The second user is added to the old entry before the pass looks at it, and
   the pass then drops the entry, second user and all, because it was made 6 s
   ago: nothing is spoken and no entry is left.
   */
  lemma LateSecondUserDropped()
    ensures var m1 := Survivors(Update(map[], 0, Privmsg("u1", "hi")), 3, 5, 0);
      var r2 := Update(m1, 6_000_000_000, Privmsg("u2", "hi"));
      && r2 == map["hi" := MessageData(["u1", "u2"], 0)]
      && Spoken(r2, 3) == []
      && Survivors(r2, 3, 5, 6_000_000_000) == map[]
  {
    FirstHi(5);
    assert ToLower("hi") == "hi";
    SecondHi(6_000_000_000, "hi");
    OneKeySpoken("hi", MessageData(["u1", "u2"], 0), 3);
    assert AgeSecs(6_000_000_000, 0) == 6;
  }
}
