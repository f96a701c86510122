/** Packing instructions into transactions: the settler's batch processor and the keeper's batched
    sender. */
module BatchPacking {
  import opened Options

  type Instruction = nat

  /** `PreparedInstructions`: instructions and the compute units they need. */
  datatype Batch = Batch(ixs: seq<Instruction>, cu: nat) {
    function Append(other: Batch): Batch {
      Batch(ixs + other.ixs, cu + other.cu)
    }
  }

  const Empty: Batch := Batch([], 0)

  // ---- What a packer keeps ----

  /** All instructions of some batches, in order. */
  function Flatten(batches: seq<Batch>): seq<Instruction> {
    if batches == [] then [] else Flatten(batches[..|batches| - 1]) + batches[|batches| - 1].ixs
  }

  lemma FlattenAppend(batches: seq<Batch>, b: Batch)
    ensures Flatten(batches + [b]) == Flatten(batches) + b.ixs
  {
    assert (batches + [b])[..|batches|] == batches;
  }

  /** A batch has no instructions, meets the limits, or is a single item. */
  ghost predicate Good(b: Batch, items: seq<Batch>, limits: Batch -> bool) {
    b.ixs == [] || limits(b) || b in items
  }

  ghost predicate AllGood(batches: seq<Batch>, items: seq<Batch>, limits: Batch -> bool) {
    forall b :: b in batches ==> Good(b, items, limits)
  }

  /** The batches sent and the one being filled hold the items' instructions, in order and without
      loss or repetition, and all of them are good. */
  ghost predicate Packs(sent: seq<Batch>, current: Batch, items: seq<Batch>, limits: Batch -> bool) {
    && Flatten(sent) + current.ixs == Flatten(items)
    && AllGood(sent, items, limits)
    && Good(current, items, limits)
  }

  lemma MoreItems(sent: seq<Batch>, items: seq<Batch>, item: Batch, limits: Batch -> bool)
    requires AllGood(sent, items, limits)
    ensures AllGood(sent, items + [item], limits)
    ensures item in items + [item]
  {
    assert (items + [item])[|items|] == item;
    forall b | b in sent ensures Good(b, items + [item], limits) {
      assert Good(b, items, limits);
    }
  }

  /** An item that fits joins the current batch. */
  lemma JoinPacks(sent: seq<Batch>, current: Batch, items: seq<Batch>, item: Batch, limits: Batch -> bool)
    requires Packs(sent, current, items, limits) && limits(current.Append(item))
    ensures Packs(sent, current.Append(item), items + [item], limits)
  {
    FlattenAppend(items, item);
    MoreItems(sent, items, item, limits);
  }

  /** An item that does not fit starts a new batch; the old one is sent, or dropped if empty. */
  lemma SplitPacks(sent: seq<Batch>, current: Batch, items: seq<Batch>, item: Batch, limits: Batch -> bool)
    requires Packs(sent, current, items, limits)
    ensures Packs(sent + [current], item, items + [item], limits)
    ensures current.ixs == [] ==> Packs(sent, item, items + [item], limits)
  {
    FlattenAppend(items, item);
    FlattenAppend(sent, current);
    MoreItems(sent, items, item, limits);
    MoreItems([current], items, item, limits);
  }

  // ---- The settler's batch processor ----

  const MAX_CU_PER_TX: nat := 1_400_000
  const PACKET_DATA_SIZE: nat := 1232

  datatype Verdict = Fits | Split | Fail

  /** `SettleBatchProcessor`. `size` is the serialized size of a batch's transaction, None if it
      cannot be built. */
  class SettleBatchProcessor {
    var instructions: Batch
    const maxBatchSize: nat
    const size: Batch -> Option<nat>

    /** The items added so far and the batches handed to the network. */
    ghost var items: seq<Batch>
    ghost var sent: seq<Batch>

    function Limits(): Batch -> bool {
      (b: Batch) =>
        && |b.ixs| <= maxBatchSize
        && b.cu < MAX_CU_PER_TX
        && size(b).Some? && size(b).value < PACKET_DATA_SIZE
    }

    ghost predicate Valid()
      reads this
    {
      && Packs(sent, instructions, items, Limits())
      && forall b :: b in sent ==> b.ixs != []
    }

    constructor (maxBatchSize: nat, size: Batch -> Option<nat>)
      ensures Valid() && items == [] && sent == []
      ensures this.maxBatchSize == maxBatchSize && this.size == size
    {
      this.maxBatchSize, this.size := maxBatchSize, size;
      instructions, items, sent := Empty, [], [];
    }

    /** Hands the pending instructions to the network, unless there are none. A failure to build
        the transaction is an error that leaves them pending; a failure to send it is not. */
    method Send() returns (ok: bool)
      requires Valid()
      modifies this`instructions, this`sent
      ensures Valid()
      ensures ok <==> old(instructions).ixs == [] || size(old(instructions)).Some?
      ensures ok && old(instructions).ixs != [] ==>
                sent == old(sent) + [old(instructions)] && instructions == Empty
      ensures !ok || old(instructions).ixs == [] ==> sent == old(sent) && instructions == old(instructions)
    {
      if |instructions.ixs| == 0 {
        return true;
      }
      if size(instructions) == None {
        return false;
      }
      FlattenAppend(sent, instructions);
      sent := sent + [instructions];
      instructions := Empty;
      return true;
    }

    /** Whether a batch can stay pending, has to be split, or can never be sent. */
    function Check(b: Batch): (v: Verdict)
      ensures v == Fits <==> Limits()(b)
    {
      if |b.ixs| > maxBatchSize || b.cu >= MAX_CU_PER_TX then Split
      else if size(b) == None then Fail
      else if size(b).value < PACKET_DATA_SIZE then Fits
      else if |b.ixs| == 1 then Fail
      else Split
    }

    /** Adds an item, sending the pending batch first if the item does not fit it. */
    method AddAndMaybeSend(item: Batch) returns (ok: bool)
      requires Valid()
      modifies this`instructions, this`sent, this`items
      ensures ok ==> Valid() && items == old(items) + [item]
      ensures !ok ==> sent == old(sent) && items == old(items)
      ensures var joined := old(instructions).Append(item);
              !ok <==> Check(joined) == Fail
                       || (Check(joined) == Split && old(instructions).ixs != [] && size(old(instructions)) == None)
      ensures ok && Limits()(old(instructions).Append(item)) ==>
                sent == old(sent) && instructions == old(instructions).Append(item)
      ensures ok && !Limits()(old(instructions).Append(item)) ==>
                && instructions == item
                && sent == if old(instructions).ixs == [] then old(sent) else old(sent) + [old(instructions)]
    {
      var previous := instructions;
      instructions := previous.Append(item);
      var verdict := Check(instructions);
      if verdict == Fail {
        return false;
      }
      if verdict == Fits {
        JoinPacks(sent, previous, items, item, Limits());
      } else {
        SplitPacks(sent, previous, items, item, Limits());
        instructions := previous;
        ok := Send();
        if !ok {
          return false;
        }
        instructions := item;
      }
      items := items + [item];
      return true;
    }
  }

  // ---- The keeper's sender ----

  ghost predicate HasEmpty(batches: seq<Batch>) {
    exists b :: b in batches && b.ixs == []
  }

  lemma HasEmptyAppend(batches: seq<Batch>, b: Batch)
    ensures HasEmpty(batches + [b]) <==> HasEmpty(batches) || b.ixs == []
  {
    var all := batches + [b];
    assert all[|batches|] == b;
    if HasEmpty(batches) {
      var e :| e in batches && e.ixs == [];
      assert e in all;
    }
  }

  /** Packs the items in order and hands each batch to the network; `limits` is the size and
      compute limit of a transaction. If no item is empty, a transaction without instructions is
      sent exactly when the first item alone does not fit. */
  method SendBatched(items: seq<Batch>, limits: Batch -> bool) returns (handed: seq<Batch>)
    ensures Flatten(handed) == Flatten(items)
    ensures AllGood(handed, items, limits)
    ensures !HasEmpty(items) ==> (HasEmpty(handed) <==> items != [] && !limits(items[0]))
  {
    handed := [];
    var current := Empty;
    for i := 0 to |items|
      invariant Packs(handed, current, items[..i], limits)
      invariant i == 0 ==> current == Empty
      invariant !HasEmpty(items) && i > 0 ==> current.ixs != []
      invariant !HasEmpty(items) ==> (HasEmpty(handed) <==> i > 0 && !limits(items[0]))
    {
      assert items[..i + 1] == items[..i] + [items[i]];
      assert items[i] in items;
      var previous := current;
      current := previous.Append(items[i]);
      assert i == 0 ==> current == items[0];
      if limits(current) {
        JoinPacks(handed, previous, items[..i], items[i], limits);
      } else {
        SplitPacks(handed, previous, items[..i], items[i], limits);
        HasEmptyAppend(handed, previous);
        handed := handed + [previous];
        current := items[i];
      }
    }
    assert items[..|items|] == items;
    if |current.ixs| != 0 {
      FlattenAppend(handed, current);
      HasEmptyAppend(handed, current);
      handed := handed + [current];
    }
  }
}
