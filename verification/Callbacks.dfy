/**
 The queue of callbacks run from the top-level event loop (callback.c): a linked
 list of nodes with head, tail and the callback being run.

 `history`, `executed` and `deleted` record what has happened to every node;
 the invariant says that what ran followed by what waits is everything queued,
 in order, without what was deleted.
 */
module Callbacks {

  /** A callback owner: an opaque pointer, or an idempotent callback itself. */
  datatype Context = Opaque(id: nat) | Of(ic: IdempotentCallback)

  datatype Function = RunIdempotent | Plain(id: nat)

  class IdempotentCallback {
    const ctx: Context
    var queued: bool
  }

  class Callback {
    const fn: Function
    const ctx: Context
    var next: Callback?

    constructor (fn: Function, ctx: Context)
      ensures this.fn == fn && this.ctx == ctx && next == null
    {
      this.fn, this.ctx, next := fn, ctx, null;
    }
  }

  /** The entry belongs to the context, directly or through its idempotent
      callback. */
  predicate Matches(cb: Callback, ctx: Context) {
    cb.ctx == ctx || (cb.fn.RunIdempotent? && cb.ctx.Of? && cb.ctx.ic.ctx == ctx)
  }

  predicate IsFor(cb: Callback, ic: IdempotentCallback) {
    cb.fn.RunIdempotent? && cb.ctx == Of(ic)
  }

  /** The entries that do not belong to the context, in order. */
  function Kept(s: seq<Callback>, ctx: Context): seq<Callback> {
    if s == [] then []
    else
      var last := s[|s| - 1];
      Kept(s[..|s| - 1], ctx) + if Matches(last, ctx) then [] else [last]
  }

  predicate NoDup(s: seq<Callback>) {
    forall i, j :: 0 <= i < j < |s| ==> s[i] != s[j]
  }

  /** The nodes of h that have not been deleted, in order. */
  ghost function Without(h: seq<Callback>, deleted: set<Callback>): seq<Callback> {
    if h == [] then []
    else
      var last := h[|h| - 1];
      Without(h[..|h| - 1], deleted) + if last in deleted then [] else [last]
  }

  /** What ran and what waits is everything queued, in order, without what was
      deleted. */
  ghost predicate Accounted(
    executed: seq<Callback>, items: seq<Callback>, history: seq<Callback>, deleted: set<Callback>)
  {
    NoDup(history) && executed + items == Without(history, deleted)
  }

  ghost predicate Linked(s: seq<Callback>)
    reads s
  {
    forall i {:trigger s[i].next} :: 0 <= i < |s| ==> s[i].next == if i + 1 < |s| then s[i + 1] else null
  }

  /** Each node but the last points to the next one. */
  ghost predicate Joined(s: seq<Callback>)
    reads s
  {
    forall i {:trigger s[i].next} :: 0 <= i < |s| - 1 ==> s[i].next == s[i + 1]
  }

  ghost function First(s: seq<Callback>): Callback? {
    if s == [] then null else s[0]
  }

  ghost function Last(s: seq<Callback>): Callback? {
    if s == [] then null else s[|s| - 1]
  }

  /** No idempotent callback has two entries. */
  predicate OneEach(s: seq<Callback>) {
    forall i, j :: 0 <= i < j < |s| && s[i].fn.RunIdempotent? && s[j].fn.RunIdempotent? ==> s[i].ctx != s[j].ctx
  }

  /** Idempotent entries carry their idempotent callback. */
  predicate Typed(s: seq<Callback>, clients: set<IdempotentCallback>) {
    forall i :: 0 <= i < |s| && s[i].fn.RunIdempotent? ==> s[i].ctx.Of? && s[i].ctx.ic in clients
  }

  /** A flag is set exactly when its callback waits or its entry was deleted
      without the flag being cleared. */
  ghost predicate Truthful(s: seq<Callback>, clients: set<IdempotentCallback>, lost: set<IdempotentCallback>)
    reads clients
  {
    && lost <= clients
    && (forall ic :: ic in lost ==> NoneFor(s, ic))
    && (forall ic :: ic in clients ==> (ic.queued <==> !NoneFor(s, ic) || ic in lost))
  }

  /** The idempotent callbacks whose entries a deletion for ctx takes away. */
  ghost function LostTo(s: seq<Callback>, clients: set<IdempotentCallback>, ctx: Context): set<IdempotentCallback> {
    set ic | ic in clients && !NoneFor(s, ic) && (Of(ic) == ctx || ic.ctx == ctx)
  }

  predicate NoneFor(s: seq<Callback>, ic: IdempotentCallback) {
    forall i :: 0 <= i < |s| ==> !IsFor(s[i], ic)
  }

  /** The history grew from h to g without an entry for any of the stale ones. */
  ghost predicate NoneQueued(h: seq<Callback>, g: seq<Callback>, stale: set<IdempotentCallback>) {
    h <= g && forall ic :: ic in stale ==> NoneFor(g[|h|..], ic)
  }

  lemma NoneQueuedYet(h: seq<Callback>, stale: set<IdempotentCallback>)
    ensures NoneQueued(h, h, stale)
  {
  }

  lemma NoneQueuedLast(h: seq<Callback>, stale: set<IdempotentCallback>, cb: Callback)
    requires forall ic :: ic in stale ==> !IsFor(cb, ic)
    ensures NoneQueued(h, h + [cb], stale)
  {
    assert (h + [cb])[|h|..] == [cb];
  }

  lemma NoneQueuedOn(
      h: seq<Callback>, g: seq<Callback>, f: seq<Callback>, stale: set<IdempotentCallback>, more: set<IdempotentCallback>)
    requires NoneQueued(h, g, stale) && NoneQueued(g, f, more) && stale <= more
    ensures NoneQueued(h, f, stale)
  {
    forall ic | ic in stale ensures NoneFor(f[|h|..], ic) {
      forall i | 0 <= i < |f[|h|..]| ensures !IsFor(f[|h|..][i], ic) {
        if |h| + i < |g| {
          assert f[|h|..][i] == g[|h|..][i];
        } else {
          assert f[|h|..][i] == f[|g|..][|h| + i - |g|];
        }
      }
    }
  }

  datatype Op =
    | Queue(fn: nat, ctx: Context)
    | QueueIdempotent(ic: IdempotentCallback)
    | Delete(ctx: Context)

  /** The idempotent callbacks that the operations queue. */
  ghost function Idempotents(ops: seq<Op>): set<IdempotentCallback> {
    set i | 0 <= i < |ops| && ops[i].QueueIdempotent? :: ops[i].ic
  }

  lemma IdempotentsMore(ops: seq<Op>, i: nat)
    requires i < |ops|
    ensures Idempotents(ops[..i + 1]) == Idempotents(ops[..i]) + if ops[i].QueueIdempotent? then {ops[i].ic} else {}
    ensures ops[i].QueueIdempotent? ==> ops[i].ic in Idempotents(ops)
  {
    var more, less := Idempotents(ops[..i + 1]), Idempotents(ops[..i]);
    forall ic | ic in less ensures ic in more {
      var j :| 0 <= j < i && ops[..i][j].QueueIdempotent? && ops[..i][j].ic == ic;
      assert ops[..i + 1][j] == ops[..i][j];
    }
    forall ic | ic in more ensures ic in less || (ops[i].QueueIdempotent? && ic == ops[i].ic) {
      var j :| 0 <= j < i + 1 && ops[..i + 1][j].QueueIdempotent? && ops[..i + 1][j].ic == ic;
      assert j < i ==> ops[..i][j] == ops[..i + 1][j];
    }
    assert ops[..i + 1][i] == ops[i];
  }

  class CallbackQueue {
    var head: Callback?
    var tail: Callback?
    var curr: Callback?
    const notify: bool
    var notifications: nat
    ghost var items: seq<Callback>
    ghost var history: seq<Callback>
    ghost var executed: seq<Callback>
    ghost var deleted: set<Callback>
    ghost var clients: set<IdempotentCallback>
    ghost var lost: set<IdempotentCallback>

    constructor (notify: bool)
      ensures Valid() && items == history == executed == [] && curr == null && notifications == 0
    {
      this.notify := notify;
      head, tail, curr, notifications := null, null, null, 0;
      items, history, executed, deleted, clients, lost := [], [], [], {}, {}, {};
    }

    /** head, tail and the links agree on the waiting nodes. */
    ghost predicate ListValid()
      reads this, items
    {
      && NoDup(items)
      && Linked(items)
      && head == First(items) && tail == Last(items)
    }

    ghost predicate QueueValid()
      reads this, items
    {
      && ListValid()
      && Accounted(executed, items, history, deleted)
      && OneEach(items)
      && Typed(items, clients)
    }

    ghost predicate Valid()
      reads this, items, clients
    {
      QueueValid() && Truthful(items, clients, lost)
    }

    /** toplevel_callback_pending. */
    predicate Pending()
      reads this
    {
      curr != null || head != null
    }

    /** queue_toplevel_callback. */
    method QueueToplevel(fn: Function, ctx: Context) returns (ghost added: Callback)
      requires QueueValid()
      requires fn.RunIdempotent? ==> ctx.Of? && ctx.ic in clients && NoneFor(items, ctx.ic)
      modifies this`head, this`tail, this`items, this`history, this`notifications, items
      ensures QueueValid() && Pending()
      ensures old(Valid()) && fn.Plain? ==> Valid()
      ensures notifications == old(notifications) + if notify && !old(Pending()) then 1 else 0
      ensures fresh(added) && added.fn == fn && added.ctx == ctx
      ensures items == old(items) + [added] && history == old(history) + [added]
    {
      hide Accounted, OneEach, Typed, Truthful, Linked, NoDup;
      if notify && head == null && curr == null {
        notifications := notifications + 1;
      }
      ghost var before := items;
      added := AddLast(fn, ctx);
      QueuedLast(executed, before, history, deleted, added);
      TypedLast(before, clients, added);
      history := history + [added];
      if fn.Plain? && Truthful(before, clients, lost) {
        TruthfulLast(before, clients, lost, added);
      }
    }

    /** The new node at the end of the list. */
    method AddLast(fn: Function, ctx: Context) returns (cb: Callback)
      requires ListValid()
      modifies this`head, this`tail, this`items, items
      ensures ListValid() && head != null && items == old(items) + [cb]
      ensures fresh(cb) && cb.fn == fn && cb.ctx == ctx
    {
      hide Linked, NoDup;
      cb := new Callback(fn, ctx);
      if tail == null {
        head := cb;
      }
      LinkLast(items, tail, cb);
      tail := cb;
      items := items + [cb];
    }

    static method LinkLast(ghost s: seq<Callback>, tail: Callback?, cb: Callback)
      requires NoDup(s) && Linked(s) && tail == Last(s) && cb !in s && cb.next == null
      modifies if s == [] then {} else {s[|s| - 1]}
      ensures Linked(s + [cb]) && NoDup(s + [cb])
    {
      if tail != null {
        tail.next := cb;
      }
    }

    /** queue_idempotent_callback. */
    method QueueIdempotentCallback(ic: IdempotentCallback) returns (ghost added: Callback?)
      requires Valid() && (ic in clients || !ic.queued)
      modifies this`head, this`tail, this`items, this`history, this`notifications, this`clients, items, ic
      ensures Valid() && ic.queued && clients == old(clients) + {ic}
      ensures old(ic.queued) ==> items == old(items) && history == old(history) && notifications == old(notifications)
      ensures !old(ic.queued) ==>
        && added != null && fresh(added) && IsFor(added, ic)
        && items == old(items) + [added] && history == old(history) + [added]
        && notifications == old(notifications) + if notify && !old(Pending()) then 1 else 0
    {
      hide Accounted, OneEach;
      clients := clients + {ic};
      added := null;
      if ic.queued {
        return;
      }
      ic.queued := true;
      added := QueueToplevel(RunIdempotent, Of(ic));
      forall c | c in clients ensures NoneFor(items, c) <==> NoneFor(old(items), c) && c != ic {
        NoneForAppend(old(items), added, c);
      }
    }

    /** delete_callbacks_for_context: a stable filter of the waiting nodes.  The
        flags of the idempotent callbacks it takes away stay set. */
    method DeleteForContext(ctx: Context)
      requires Valid()
      modifies this`head, this`tail, this`items, this`deleted, this`lost, items
      ensures Valid() && items == Kept(old(items), ctx)
      ensures deleted == old(deleted) + set c | c in old(items) && Matches(c, ctx)
      ensures lost == old(lost) + LostTo(old(items), clients, ctx)
      ensures forall c :: c in items ==> c in old(items)
    {
      hide Accounted, OneEach, Typed, Truthful, LostTo;
      ghost var kept := Relink(ctx);
      DeletedAre(executed, items, history, deleted, ctx);
      KeptTyped(items, ctx, clients);
      KeptTruthful(items, ctx, clients, lost);
      deleted := deleted + set c | c in items && Matches(c, ctx);
      lost := lost + LostTo(items, clients, ctx);
      items := kept;
    }

    /** The loop that takes the list apart and links up what stays. */
    method Relink(ctx: Context) returns (ghost kept: seq<Callback>)
      requires ListValid()
      modifies this`head, this`tail, items
      ensures kept == Kept(items, ctx) && NoDup(kept) && Linked(kept)
      ensures head == First(kept) && tail == Last(kept)
    {
      hide Linked, Joined, Matches, NoDup, Keeping, Kept;
      var newhead: Callback?, newtail: Callback? := null, null;
      kept := [];
      ghost var done, rest := [], items;
      NothingKept(items, ctx);
      while head != null
        invariant Keeping(items, done, rest, kept, ctx)
        invariant newhead == First(kept) && newtail == Last(kept) && Joined(kept)
        invariant head == First(rest) && Linked(rest)
        decreases |rest|
      {
        var cb: Callback := head;
        KeepNext(items, done, rest, kept, ctx);
        NextOf(rest);
        head := head.next;
        if !Matches(cb, ctx) {
          newhead := Append(kept, newhead, newtail, cb);
          newtail := cb;
          kept := kept + [cb];
        }
        done, rest := done + [cb], rest[1..];
      }
      KeptAll(items, done, kept, ctx);
      head := newhead;
      tail := newtail;
      Terminate(kept, newtail);
    }

    static method Terminate(ghost kept: seq<Callback>, newtail: Callback?)
      requires NoDup(kept) && Joined(kept) && newtail == Last(kept)
      modifies if kept == [] then {} else {kept[|kept| - 1]}
      ensures Linked(kept)
    {
      if newtail != null {
        newtail.next := null;
      }
    }

    static method Append(ghost kept: seq<Callback>, newhead: Callback?, newtail: Callback?, cb: Callback)
        returns (h: Callback)
      requires NoDup(kept) && cb !in kept && Joined(kept) && newhead == First(kept) && newtail == Last(kept)
      modifies if kept == [] then {} else {kept[|kept| - 1]}
      ensures h == First(kept + [cb]) && Joined(kept + [cb])
    {
      if newhead == null {
        h := cb;
      } else {
        h := newhead;
        newtail.next := cb;
      }
    }

    /** What a running callback may do to the queue. */
    method Perform(op: Op)
      requires Valid() && curr != null
      requires op.QueueIdempotent? ==> op.ic in clients || !op.ic.queued
      modifies this`head, this`tail, this`items, this`history, this`deleted, this`lost, this`notifications, this`clients
      modifies items, if op.QueueIdempotent? then {op.ic} else {}
      ensures Valid() && forall k :: 0 <= k < |items| ==> items[k] in old(items) || fresh(items[k])
      ensures clients == old(clients) + if op.QueueIdempotent? then {op.ic} else {}
      ensures notifications == old(notifications)
      ensures old(lost) <= lost && NoneQueued(old(history), history, old(lost))
    {
      hide Accounted, OneEach, Typed, Linked, NoDup, NoneQueued;
      NoneQueuedYet(history, lost);
      match op
      case Queue(fn, ctx) =>
        ghost var added := QueueToplevel(Plain(fn), ctx);
        NoneQueuedLast(old(history), lost, added);
      case QueueIdempotent(ic) =>
        ghost var added := QueueIdempotentCallback(ic);
        if added != null && !old(ic.queued) {
          NoneQueuedLast(old(history), lost, added);
        }
      case Delete(ctx) => DeleteForContext(ctx);
    }

    /** Transfer the head to curr; a waiting idempotent callback clears its flag as
        it starts. */
    method StartHead()
      requires Valid() && curr == null && head != null
      modifies this`head, this`tail, this`curr, this`items, this`executed, clients
      ensures Valid() && old(items) != [] && curr == old(items)[0] && items == old(items)[1..]
      ensures executed == old(executed) + [old(items)[0]]
    {
      hide Accounted, Linked, NoDup;
      NextOf(items);
      StartedFirst(executed, items, history, deleted);
      ghost var rest := items[1..];
      RestTyped(items, clients);
      curr := head;
      head := head.next;
      if head == null {
        tail := null;
      }
      executed := executed + [items[0]];
      items := rest;
      if curr.fn.RunIdempotent? {
        curr.ctx.ic.queued := false;
      }
    }

    /** The running callback performs its operations. */
    method PerformAll(ops: seq<Op>)
      requires Valid() && curr != null
      requires forall i :: 0 <= i < |ops| && ops[i].QueueIdempotent? ==> ops[i].ic in clients || !ops[i].ic.queued
      modifies this`head, this`tail, this`items, this`history, this`deleted, this`lost, this`notifications, this`clients
      modifies items, Idempotents(ops)
      ensures Valid() && notifications == old(notifications)
      ensures clients == old(clients) + Idempotents(ops)
      ensures old(lost) <= lost && NoneQueued(old(history), history, old(lost))
      ensures ops == [] ==> items == old(items) && history == old(history)
    {
      hide Accounted, OneEach, Typed, Truthful, Linked, NoDup, NoneQueued;
      NoneQueuedYet(history, lost);
      for i := 0 to |ops|
        invariant Valid() && curr != null && notifications == old(notifications)
        invariant clients == old(clients) + Idempotents(ops[..i])
        invariant forall j :: i <= j < |ops| && ops[j].QueueIdempotent? ==> ops[j].ic in clients || !ops[j].ic.queued
        invariant forall k :: 0 <= k < |items| ==> items[k] in old(items) || fresh(items[k])
        invariant i == 0 ==> items == old(items) && history == old(history)
        invariant old(lost) <= lost && NoneQueued(old(history), history, old(lost))
      {
        ghost var before, stale := history, lost;
        IdempotentsMore(ops, i);
        Perform(ops[i]);
        NoneQueuedOn(old(history), before, history, old(lost), stale);
      }
      assert ops[..|ops|] == ops;
    }

    /** run_toplevel_callbacks: the head is taken off the queue and run; running
        it performs the operations given.  An idempotent callback whose flag is
        stale is neither waiting afterwards nor queued meanwhile. */
    method Run(ops: seq<Op>) returns (did: bool)
      requires Valid() && curr == null
      requires forall i :: 0 <= i < |ops| && ops[i].QueueIdempotent? ==> ops[i].ic in clients || !ops[i].ic.queued
      modifies this`head, this`tail, this`curr, this`items, this`history, this`executed, this`deleted, this`lost
      modifies this`notifications, this`clients, items, clients, Idempotents(ops)
      ensures Valid() && curr == null && notifications == old(notifications)
      ensures clients == old(clients) + if did then Idempotents(ops) else {}
      ensures did == (old(items) != [])
      ensures !did ==> items == old(items) && history == old(history) && executed == old(executed)
      ensures did ==> executed == old(executed) + [old(items)[0]]
      ensures did && ops == [] ==> items == old(items)[1..] && history == old(history)
      ensures old(lost) <= lost && NoneQueued(old(history), history, old(lost))
      ensures forall ic :: ic in old(lost) ==> ic.queued && NoneFor(items, ic)
    {
      hide Accounted, OneEach, Typed, Truthful, Linked, NoDup, Idempotents, NoneQueued;
      NoneQueuedYet(history, lost);
      if head == null {
        StaleMeans(items, clients, lost);
        return false;
      }
      StartHead();
      PerformAll(ops);
      StaleMeans(items, clients, lost);
      curr := null;
      did := true;
    }
  }

  // ----- links

  lemma NextOf(s: seq<Callback>)
    requires Linked(s) && s != []
    ensures s[0].next == First(s[1..]) && Linked(s[1..])
  {
    var t := s[1..];
    forall i | 0 <= i < |t| ensures t[i].next == if i + 1 < |t| then t[i + 1] else null {
      assert t[i] == s[i + 1];
    }
  }

  /** How far the loop has got: done, rest and what is kept of done. */
  predicate Keeping(
    items: seq<Callback>, done: seq<Callback>, rest: seq<Callback>, kept: seq<Callback>, ctx: Context)
  {
    NoDup(items) && done + rest == items && kept == Kept(done, ctx)
  }

  lemma NothingKept(items: seq<Callback>, ctx: Context)
    requires NoDup(items)
    ensures Keeping(items, [], items, [], ctx) && Joined([])
  {
    assert [] + items == items;
  }

  lemma KeptAll(items: seq<Callback>, done: seq<Callback>, kept: seq<Callback>, ctx: Context)
    requires Keeping(items, done, [], kept, ctx)
    ensures kept == Kept(items, ctx) && NoDup(kept)
    ensures kept != [] ==> kept[|kept| - 1] in items
  {
    assert done + [] == done;
    KeptNoDup(items, ctx);
    assert kept != [] ==> kept[|kept| - 1] in kept;
  }

  lemma KeepNext(items: seq<Callback>, done: seq<Callback>, rest: seq<Callback>, kept: seq<Callback>, ctx: Context)
    requires Keeping(items, done, rest, kept, ctx) && rest != []
    ensures var more := if Matches(rest[0], ctx) then kept else kept + [rest[0]];
      Keeping(items, done + [rest[0]], rest[1..], more, ctx)
    ensures NoDup(kept) && rest[0] !in kept
    ensures kept != [] ==> kept[|kept| - 1] in items && kept[|kept| - 1] !in rest[1..]
  {
    hide NoDup;
    KeptGrows(done, rest, ctx);
    assert done + [rest[0]] + rest[1..] == items;
    assert kept != [] ==> kept[|kept| - 1] in kept;
    assert forall c :: c in rest[1..] ==> c in rest;
    assert rest[0] in rest;
  }

  /** What is kept so far is apart from what is left. */
  lemma KeptGrows(done: seq<Callback>, rest: seq<Callback>, ctx: Context)
    requires NoDup(done + rest) && rest != []
    ensures NoDup(Kept(done, ctx))
    ensures forall c :: c in Kept(done, ctx) ==> c !in rest && c in done + rest
    ensures Kept(done + [rest[0]], ctx) == Kept(done, ctx) + if Matches(rest[0], ctx) then [] else [rest[0]]
    ensures rest[0] !in rest[1..]
  {
    var all := done + rest;
    assert all[..|done|] == done;
    assert forall i :: 0 <= i < |done| ==> all[i] == done[i];
    assert forall i :: 0 <= i < |rest| ==> all[|done| + i] == rest[i];
    Apart(done, rest);
    KeptNoDup(done, ctx);
    assert (done + [rest[0]])[..|done|] == done;
    forall i | 0 < i < |rest| ensures rest[i] != rest[0] {
      assert all[|done| + i] == rest[i] && all[|done|] == rest[0];
    }
  }

  // ----- order

  lemma {:induction false} WithoutAppend(h: seq<Callback>, g: seq<Callback>, d: set<Callback>)
    ensures Without(h + g, d) == Without(h, d) + Without(g, d)
  {
    if g == [] {
      assert h + g == h;
    } else {
      var n := |g| - 1;
      WithoutAppend(h, g[..n], d);
      assert (h + g)[..|h| + n] == h + g[..n];
    }
  }

  lemma {:induction false} WithoutTwice(h: seq<Callback>, d: set<Callback>, e: set<Callback>)
    ensures Without(Without(h, d), e) == Without(h, d + e)
  {
    if h != [] {
      var n := |h| - 1;
      WithoutTwice(h[..n], d, e);
      WithoutAppend(Without(h[..n], d), if h[n] in d then [] else [h[n]], e);
      assert h[n] !in d ==> [h[n]][..0] == [];
    }
  }

  lemma {:induction false} WithoutNone(h: seq<Callback>, d: set<Callback>)
    requires forall c :: c in h ==> c !in d
    ensures Without(h, d) == h
  {
    if h != [] {
      var n := |h| - 1;
      assert h == h[..n] + [h[n]];
      WithoutNone(h[..n], d);
    }
  }

  lemma {:induction false} WithoutIn(h: seq<Callback>, d: set<Callback>)
    ensures forall c :: c in Without(h, d) ==> c in h
  {
    if h != [] {
      var n := |h| - 1;
      assert h == h[..n] + [h[n]];
      WithoutIn(h[..n], d);
    }
  }

  lemma {:induction false} WithoutNoDup(h: seq<Callback>, d: set<Callback>)
    requires NoDup(h)
    ensures NoDup(Without(h, d))
  {
    if h != [] {
      var n := |h| - 1;
      assert h == h[..n] + [h[n]];
      WithoutNoDup(h[..n], d);
      WithoutIn(h[..n], d);
      var w := Without(h[..n], d);
      forall j | 0 <= j < |w| ensures w[j] != h[n] {
        assert w[j] in w && w[j] in h[..n];
      }
    }
  }

  /** Of two nodes that are not deleted the one queued first comes first among
      what ran and what waits. */
  lemma {:induction false} OrderKept(h: seq<Callback>, d: set<Callback>, i: nat, j: nat)
    requires i < j < |h| && h[i] !in d && h[j] !in d
    ensures exists a, b :: 0 <= a < b < |Without(h, d)| && Without(h, d)[a] == h[i] && Without(h, d)[b] == h[j]
  {
    var x, y := Without(h[..j], d), Without(h[j..], d);
    WithoutAppend(h[..j], h[j..], d);
    assert h == h[..j] + h[j..];
    WithoutHas(h[..j], d, i);
    WithoutHas(h[j..], d, 0);
    var a :| 0 <= a < |x| && x[a] == h[..j][i];
    var b :| 0 <= b < |y| && y[b] == h[j..][0];
    assert (x + y)[a] == h[i] && (x + y)[|x| + b] == h[j];
  }

  lemma {:induction false} WithoutHas(h: seq<Callback>, d: set<Callback>, i: nat)
    requires i < |h| && h[i] !in d
    ensures exists a :: 0 <= a < |Without(h, d)| && Without(h, d)[a] == h[i]
  {
    var n := |h| - 1;
    var w := Without(h[..n], d);
    if i == n {
      assert Without(h, d)[|w|] == h[n];
    } else {
      WithoutHas(h[..n], d, i);
      var a :| 0 <= a < |w| && w[a] == h[i];
      assert Without(h, d)[a] == h[i];
    }
  }

  lemma QueuedLast(
      executed: seq<Callback>, items: seq<Callback>, h: seq<Callback>, d: set<Callback>, cb: Callback)
    requires Accounted(executed, items, h, d) && cb !in d && cb !in h
    ensures Accounted(executed, items + [cb], h + [cb], d)
  {
    assert (h + [cb])[..|h|] == h;
  }

  lemma {:induction false} KeptNoDup(s: seq<Callback>, ctx: Context)
    requires NoDup(s)
    ensures NoDup(Kept(s, ctx)) && forall c :: c in Kept(s, ctx) ==> c in s
  {
    if s != [] {
      var n := |s| - 1;
      KeptNoDup(s[..n], ctx);
      var w := Kept(s[..n], ctx);
      assert s == s[..n] + [s[n]];
      forall j | 0 <= j < |w| ensures w[j] != s[n] {
        assert w[j] in w && w[j] in s[..n];
      }
    }
  }

  lemma StartedFirst(
      executed: seq<Callback>, items: seq<Callback>, h: seq<Callback>, d: set<Callback>)
    requires Accounted(executed, items, h, d) && items != []
    ensures Accounted(executed + [items[0]], items[1..], h, d)
  {
    assert executed + items == executed + [items[0]] + items[1..];
  }

  /** Without its first entry the list stays well formed, and no other entry is
      for the same idempotent callback. */
  lemma RestTyped(s: seq<Callback>, clients: set<IdempotentCallback>)
    requires OneEach(s) && Typed(s, clients) && NoDup(s) && s != []
    ensures OneEach(s[1..]) && Typed(s[1..], clients) && NoDup(s[1..])
    ensures s[0].fn.RunIdempotent? ==> s[0].ctx.Of? && s[0].ctx.ic in clients && NoneFor(s[1..], s[0].ctx.ic)
    ensures forall ic :: ic in clients ==>
      (NoneFor(s, ic) <==> NoneFor(s[1..], ic) && !IsFor(s[0], ic))
  {
    var t := s[1..];
    assert forall i :: 0 <= i < |t| ==> t[i] == s[i + 1];
    forall ic | ic in clients ensures NoneFor(s, ic) <==> NoneFor(t, ic) && !IsFor(s[0], ic) {
      assert forall i :: 0 < i < |s| ==> s[i] == t[i - 1];
    }
  }

  lemma TypedLast(s: seq<Callback>, clients: set<IdempotentCallback>, cb: Callback)
    requires OneEach(s) && Typed(s, clients)
    requires cb.fn.RunIdempotent? ==> cb.ctx.Of? && cb.ctx.ic in clients && NoneFor(s, cb.ctx.ic)
    ensures OneEach(s + [cb]) && Typed(s + [cb], clients)
  {
  }

  lemma TruthfulLast(
      s: seq<Callback>, clients: set<IdempotentCallback>, lost: set<IdempotentCallback>, cb: Callback)
    requires Truthful(s, clients, lost) && cb.fn.Plain?
    ensures Truthful(s + [cb], clients, lost)
  {
    forall ic | ic in clients ensures NoneFor(s + [cb], ic) == NoneFor(s, ic) {
      assert forall i :: 0 <= i < |s| ==> (s + [cb])[i] == s[i];
    }
  }

  lemma StaleMeans(s: seq<Callback>, clients: set<IdempotentCallback>, lost: set<IdempotentCallback>)
    requires Truthful(s, clients, lost)
    ensures forall ic :: ic in lost ==> ic.queued && NoneFor(s, ic)
  {
  }

  lemma {:induction false} KeptTyped(s: seq<Callback>, ctx: Context, clients: set<IdempotentCallback>)
    requires OneEach(s) && Typed(s, clients)
    ensures OneEach(Kept(s, ctx)) && Typed(Kept(s, ctx), clients)
    ensures forall i :: 0 <= i < |Kept(s, ctx)| ==> Kept(s, ctx)[i] in s
  {
    if s != [] {
      var n := |s| - 1;
      KeptTyped(s[..n], ctx, clients);
      var k := Kept(s[..n], ctx);
      forall i | 0 <= i < |k| ensures exists j :: 0 <= j < n && s[j] == k[i] {
        assert k[i] in s[..n];
      }
    }
  }

  /** An idempotent callback still waits unless its own entry was deleted. */
  lemma {:induction false} KeptFor(s: seq<Callback>, ctx: Context, ic: IdempotentCallback)
    ensures NoneFor(Kept(s, ctx), ic) <==> NoneFor(s, ic) || Of(ic) == ctx || ic.ctx == ctx
  {
    if s != [] {
      var n := |s| - 1;
      var k := Kept(s[..n], ctx);
      KeptFor(s[..n], ctx, ic);
      assert s == s[..n] + [s[n]];
      NoneForAppend(s[..n], s[n], ic);
      NoneForAppend(k, s[n], ic);
      assert Kept(s, ctx) == if Matches(s[n], ctx) then k else k + [s[n]];
    }
  }

  lemma NoneForAppend(s: seq<Callback>, cb: Callback, ic: IdempotentCallback)
    ensures NoneFor(s + [cb], ic) <==> NoneFor(s, ic) && !IsFor(cb, ic)
  {
    assert (s + [cb])[|s|] == cb;
    assert forall i :: 0 <= i < |s| ==> (s + [cb])[i] == s[i];
  }

  lemma KeptTruthful(
      s: seq<Callback>, ctx: Context, clients: set<IdempotentCallback>, lost: set<IdempotentCallback>)
    requires Truthful(s, clients, lost)
    ensures Truthful(Kept(s, ctx), clients, lost + LostTo(s, clients, ctx))
  {
    forall ic | ic in clients ensures NoneFor(Kept(s, ctx), ic) <==> NoneFor(s, ic) || Of(ic) == ctx || ic.ctx == ctx {
      KeptFor(s, ctx, ic);
    }
  }

  lemma {:induction false} KeptIsWithout(s: seq<Callback>, ctx: Context, d: set<Callback>)
    requires forall c :: c in s ==> (c in d <==> Matches(c, ctx))
    ensures Kept(s, ctx) == Without(s, d)
  {
    if s != [] {
      var n := |s| - 1;
      assert s == s[..n] + [s[n]];
      KeptIsWithout(s[..n], ctx, d);
    }
  }

  /** Deleting from the waiting nodes leaves what ran alone. */
  lemma DeletedAre(
      executed: seq<Callback>, items: seq<Callback>, history: seq<Callback>, deleted: set<Callback>, ctx: Context)
    requires Accounted(executed, items, history, deleted)
    ensures Accounted(executed, Kept(items, ctx), history, deleted + set c | c in items && Matches(c, ctx))
  {
    var d := set c | c in items && Matches(c, ctx);
    WithoutNoDup(history, deleted);
    WithoutTwice(history, deleted, d);
    WithoutAppend(executed, items, d);
    Apart(executed, items);
    WithoutNone(executed, d);
    KeptIsWithout(items, ctx, d);
  }

  lemma Apart(a: seq<Callback>, b: seq<Callback>)
    requires NoDup(a + b)
    ensures forall c :: c in a ==> c !in b
  {
    forall i, j | 0 <= i < |a| && 0 <= j < |b| ensures a[i] != b[j] {
      assert (a + b)[i] == a[i] && (a + b)[|a| + j] == b[j];
    }
  }
}
