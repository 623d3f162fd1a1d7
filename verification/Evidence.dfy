// Fitting a decision's evidence under its size cap.
module Evidence {
  import opened Options
  import opened Ordering

  const CAP := 8192

  // A resolver's raw payload, as its bytes.
  type Payload = string

  type Payloads = map<string, Payload>

  // The encoded size of a set of payloads; None when encoding fails. The JSON
  // encoding itself is not modelled, so any size function will do.
  type Encoder = Payloads -> Option<nat>

  datatype Blob = Encoded(kept: Payloads) | EmptyObject | TruncationMarker

  // a comes before b in the order in which payloads are dropped: bigger first,
  // ties by greater key.
  predicate DropsBefore(payloads: Payloads, a: string, b: string)
    requires a in payloads && b in payloads
  {
    |payloads[a]| > |payloads[b]| || (|payloads[a]| == |payloads[b]| && Less(b, a))
  }

  predicate IsNextDrop(payloads: Payloads, key: string)
  {
    key in payloads && forall k :: k in payloads && k != key ==> DropsBefore(payloads, key, k)
  }

  // The scan's running choice: the key and size of the best payload so far, or
  // the empty key and zero.
  predicate Replaces(key: string, size: nat, dropKey: string, dropSize: nat)
  {
    size > dropSize || (size == dropSize && Less(dropKey, key))
  }

  lemma NextDropUnique(payloads: Payloads, a: string, b: string)
    requires IsNextDrop(payloads, a) && IsNextDrop(payloads, b)
    ensures a == b
  {
    LessTrichotomy(a, b);
  }

  lemma DropsBeforeTransitive(payloads: Payloads, a: string, b: string, c: string)
    requires a in payloads && b in payloads && c in payloads
    requires DropsBefore(payloads, a, b) && DropsBefore(payloads, b, c)
    ensures DropsBefore(payloads, a, c)
  {
    if Less(b, a) && Less(c, b) { LessTransitive(c, b, a); }
  }

  lemma ReplacesTransitive(j: string, sj: nat, d: string, sd: nat, k: string, sk: nat)
    requires !Replaces(j, sj, d, sd) && Replaces(k, sk, d, sd)
    ensures !Replaces(j, sj, k, sk)
  {
    LessTrichotomy(d, j);
    LessTrichotomy(k, j);
    if Less(d, k) && Less(k, j) { LessTransitive(d, k, j); }
  }

  // A map iteration in any order finds the next payload to drop.
  method FindDrop(payloads: Payloads) returns (dropKey: string)
    requires payloads != map[]
    ensures IsNextDrop(payloads, dropKey)
  {
    dropKey := "";
    var dropSize := 0;
    var todo := payloads.Keys;
    while todo != {}
      invariant todo <= payloads.Keys
      invariant (dropKey == "" && dropSize == 0) || (dropKey in payloads && dropSize == |payloads[dropKey]|)
      invariant forall k :: k in payloads.Keys - todo ==> !Replaces(k, |payloads[k]|, dropKey, dropSize)
      decreases todo
    {
      var k :| k in todo;
      todo := todo - {k};
      var size := |payloads[k]|;
      if Replaces(k, size, dropKey, dropSize) {
        forall j | j in payloads.Keys - todo ensures !Replaces(j, |payloads[j]|, k, size) {
          if j == k { LessIrreflexive(k); } else { ReplacesTransitive(j, |payloads[j]|, dropKey, dropSize, k, size); }
        }
        dropKey, dropSize := k, size;
      }
    }
    forall k | k in payloads && k != dropKey ensures dropKey in payloads && DropsBefore(payloads, dropKey, k) {
      assert k in payloads.Keys - todo;
      LessTrichotomy(k, dropKey);
    }
    var some :| some in payloads;
    assert some == dropKey || dropKey in payloads;
  }

  lemma {:induction false} SomeNextDrop(payloads: Payloads, keys: set<string>) returns (key: string)
    requires keys != {} && keys <= payloads.Keys
    ensures key in keys && forall k :: k in keys && k != key ==> DropsBefore(payloads, key, k)
    decreases keys
  {
    var some :| some in keys;
    var rest := keys - {some};
    key := some;
    if rest == {} {
      assert keys == {some};
    } else {
      var best := SomeNextDrop(payloads, rest);
      LessTrichotomy(some, best);
      if DropsBefore(payloads, best, some) {
        key := best;
        assert keys == rest + {some};
      } else {
        forall k | k in keys && k != some ensures DropsBefore(payloads, some, k) {
          if k != best { DropsBeforeTransitive(payloads, some, best, k); }
        }
      }
    }
  }

  // The next payload to drop, determined by the contents alone.
  ghost function NextDrop(payloads: Payloads): (key: string)
    requires payloads != map[]
    ensures IsNextDrop(payloads, key)
  {
    NextDropExists(payloads);
    var key :| IsNextDrop(payloads, key);
    key
  }

  lemma NextDropExists(payloads: Payloads)
    requires payloads != map[]
    ensures exists key :: IsNextDrop(payloads, key)
  {
    var key := SomeNextDrop(payloads, payloads.Keys);
    assert IsNextDrop(payloads, key);
  }

  // ------------------------------------------------------------------ the cap

  predicate Fits(encode: Encoder, payloads: Payloads)
  {
    encode(payloads).Some? && encode(payloads).value <= CAP
  }

  // What trimming leaves, as a function of the contents alone.
  ghost function Trim(encode: Encoder, payloads: Payloads): Blob
    decreases |payloads|
  {
    var size := encode(payloads);
    if size.None? then EmptyObject
    else if size.value <= CAP then Encoded(payloads)
    else if payloads == map[] || NextDrop(payloads) == "" then EmptyObject
    else if |payloads| == 1 then TruncationMarker
    else Trim(encode, payloads - {NextDrop(payloads)})
  }

  // No evidence at all is the empty object, which is not truncated.
  ghost function Capped(encode: Encoder, evidence: Payloads): Blob
  {
    if evidence == map[] then EmptyObject else Trim(encode, evidence)
  }

  // What is stored when nothing is lost.
  ghost function Whole(evidence: Payloads): Blob
  {
    if evidence == map[] then EmptyObject else Encoded(evidence)
  }

  // Evidence and the truncated flag, as stored with a decision.
  method CapEvidence(encode: Encoder, evidence: Payloads) returns (blob: Blob, truncated: bool)
    ensures blob == Capped(encode, evidence) && truncated == (blob != Whole(evidence))
  {
    if |evidence| == 0 { return EmptyObject, false; }
    var working := evidence;
    truncated := false;
    while true
      invariant working != map[] && |working| <= |evidence|
      invariant Trim(encode, evidence) == Trim(encode, working)
      invariant truncated == (|working| < |evidence|)
      invariant !truncated ==> working == evidence
      decreases |working|
    {
      var size := encode(working);
      if size.None? { return EmptyObject, true; }
      if size.value <= CAP { return Encoded(working), truncated; }
      var dropKey := FindDrop(working);
      NextDropUnique(working, dropKey, NextDrop(working));
      if dropKey == "" { return EmptyObject, true; }
      assert |working - {dropKey}| == |working| - 1;
      working := working - {dropKey};
      truncated := true;
      if |working| == 0 { return TruncationMarker, true; }
    }
  }

  // ------------------------------------------------------- what it guarantees

  // Whatever is stored as encoded evidence is within the cap.
  lemma {:induction false} TrimFits(encode: Encoder, payloads: Payloads)
    ensures Trim(encode, payloads).Encoded? ==> Fits(encode, Trim(encode, payloads).kept)
    decreases |payloads|
  {
    if payloads != map[] && |payloads| > 1 {
      assert |payloads - {NextDrop(payloads)}| == |payloads| - 1;
      TrimFits(encode, payloads - {NextDrop(payloads)});
    }
  }

  // Keys are resolver names and audit slots, never empty.
  predicate Keyed(payloads: Payloads)
  {
    "" !in payloads
  }

  // kept are unchanged payloads of all, no larger than any dropped one.
  predicate KeepsSmallest(all: Payloads, kept: Payloads)
  {
    && kept.Keys <= all.Keys
    && (forall k :: k in kept ==> kept[k] == all[k])
    && (forall d, k :: d in all && d !in kept && k in kept ==> DropsBefore(all, d, k))
  }

  // Of the payloads of all that are not kept, last is the one dropped last: every
  // other one comes before it in the order of dropping.
  predicate DroppedLast(all: Payloads, kept: Payloads, last: string)
  {
    && last in all && last !in kept
    && forall d :: d in all && d !in kept && d != last ==> DropsBefore(all, d, last)
  }

  lemma KeepsSmallestCompose(all: Payloads, working: Payloads, kept: Payloads)
    requires KeepsSmallest(all, working) && KeepsSmallest(working, kept)
    ensures KeepsSmallest(all, kept)
  {
    forall d, k | d in all && d !in kept && k in kept ensures DropsBefore(all, d, k) {
      if d in working { assert DropsBefore(working, d, k); }
    }
  }

  lemma DropOneKeepsSmallest(payloads: Payloads, key: string)
    requires IsNextDrop(payloads, key)
    ensures KeepsSmallest(payloads, payloads - {key})
  {
  }

  // The stored blob fits, keeps the smallest payloads unchanged, and putting the
  // payload dropped last back would exceed the cap.
  lemma {:induction false} TrimGuarantees(encode: Encoder, payloads: Payloads)
    requires payloads != map[] && Keyed(payloads)
    ensures var blob := Trim(encode, payloads);
            && (blob.Encoded? ==> Fits(encode, blob.kept) && blob.kept != map[] && KeepsSmallest(payloads, blob.kept))
            && (blob.Encoded? && blob.kept != payloads ==>
                  exists last :: DroppedLast(payloads, blob.kept, last)
                    && encode(blob.kept[last := payloads[last]]).Some?
                    && encode(blob.kept[last := payloads[last]]).value > CAP)
            && (blob.TruncationMarker? ==>
                  exists last :: last in payloads && encode(map[last := payloads[last]]).Some?
                    && encode(map[last := payloads[last]]).value > CAP
                    && KeepsSmallest(payloads, map[last := payloads[last]]))
    decreases |payloads|
  {
    var size := encode(payloads);
    if size.Some? && size.value > CAP {
      var key := NextDrop(payloads);
      var rest := payloads - {key};
      DropOneKeepsSmallest(payloads, key);
      if |payloads| == 1 {
        assert |rest| == 0;
        assert forall k :: k in payloads && k != key ==> k in rest;
        assert payloads == map[key := payloads[key]];
      } else {
        assert |rest| == |payloads| - 1;
        TrimGuarantees(encode, rest);
        var blob := Trim(encode, rest);
        if blob.Encoded? {
          KeepsSmallestCompose(payloads, rest, blob.kept);
          if blob.kept == rest {
            assert rest[key := payloads[key]] == payloads && DroppedLast(payloads, rest, key);
          } else {
            var last :| DroppedLast(rest, blob.kept, last) && encode(blob.kept[last := rest[last]]).Some?
                        && encode(blob.kept[last := rest[last]]).value > CAP;
            assert DroppedLast(payloads, blob.kept, last);
          }
        }
        if blob.TruncationMarker? {
          var last :| last in rest && encode(map[last := rest[last]]).Some?
                      && encode(map[last := rest[last]]).value > CAP && KeepsSmallest(rest, map[last := rest[last]]);
          KeepsSmallestCompose(payloads, rest, map[last := rest[last]]);
        }
      }
    }
  }

  // No evidence is stored as the empty object, and is not truncated; any other is not
  // truncated exactly when it is encoded whole.
  lemma CappedExactly(encode: Encoder, evidence: Payloads)
    requires Keyed(evidence)
    ensures evidence == map[] ==> Capped(encode, evidence) == Whole(evidence) == EmptyObject
    ensures evidence != map[] ==>
              && (Capped(encode, evidence) == Whole(evidence) <==> Fits(encode, evidence))
              && (Fits(encode, evidence) ==> Capped(encode, evidence) == Encoded(evidence))
              && (!Fits(encode, evidence) ==> Capped(encode, evidence) != Encoded(evidence))
  {
    if evidence != map[] { TrimFits(encode, evidence); }
  }

  // In plain numbers: what is stored takes at most 8192 bytes, and no payload was dropped
  // while a bigger one was kept; of two of one size the one with the smaller key is kept.
  lemma TrimKeepsSmall(encode: Encoder, payloads: Payloads, d: string, k: string)
    requires payloads != map[] && Keyed(payloads) && Trim(encode, payloads).Encoded?
    ensures var kept := Trim(encode, payloads).kept;
            && encode(kept).Some? && encode(kept).value <= 8192
            && (k in kept ==> k in payloads && kept[k] == payloads[k])
            && (d in payloads && d !in kept && k in kept ==>
                  |payloads[k]| < |payloads[d]| || (|payloads[k]| == |payloads[d]| && Less(k, d)))
  {
    assert KeepsSmallest(payloads, Trim(encode, payloads).kept) by { TrimGuarantees(encode, payloads); }
    TrimFits(encode, payloads);
  }

  // Evidence that fits is stored whole; if no encoding fails, nothing but a lone
  // oversized payload is given up completely.
  lemma {:induction false} TrimNeverEmpty(encode: Encoder, payloads: Payloads)
    requires payloads != map[] && Keyed(payloads)
    requires forall p: Payloads {:trigger encode(p)} :: encode(p).Some?
    ensures Fits(encode, payloads) <==> Trim(encode, payloads) == Encoded(payloads)
    ensures !Trim(encode, payloads).EmptyObject?
    decreases |payloads|
  {
    if !Fits(encode, payloads) && |payloads| > 1 {
      var rest := payloads - {NextDrop(payloads)};
      assert |rest| == |payloads| - 1;
      TrimNeverEmpty(encode, rest);
      TrimGuarantees(encode, rest);
    }
  }
}
