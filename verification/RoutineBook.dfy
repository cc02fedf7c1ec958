/** The page book: a semaphore whose tokens are held under a key. Acquiring takes a token from a
    channel first and enters the page under the lock afterwards; freeing puts the token back while it
    holds the lock. */
module RoutineBook {
  import opened Chain

  /** The book between two steps of any routine: free tokens, pages, and the keys of routines that have
      a token but no page yet. */
  datatype Book = Book(size: nat, tokens: nat, pages: set<Bytes>, acquiring: seq<Bytes>)

  datatype Step = TakeToken(key: Bytes) | OpenPage(i: nat) | FreePage(key: Bytes)

  predicate Enabled(b: Book, step: Step) {
    match step {
      case TakeToken(key) => b.tokens > 0
      case OpenPage(i) => i < |b.acquiring|
      // the lock is free, but the send of the token needs room in the channel
      case FreePage(key) => key in b.pages ==> b.tokens < b.size
    }
  }

  function Next(b: Book, step: Step): Book
    requires Enabled(b, step)
  {
    match step {
      case TakeToken(key) => b.(tokens := b.tokens - 1, acquiring := b.acquiring + [key])
      case OpenPage(i) =>
        b.(pages := b.pages + {b.acquiring[i]}, acquiring := b.acquiring[..i] + b.acquiring[i + 1..])
      case FreePage(key) =>
        if key in b.pages then b.(pages := b.pages - {key}, tokens := b.tokens + 1) else b
    }
  }

  function Initial(size: nat): Book { Book(size, size, {}, []) }

  /** Everything that holds one of the size tokens. */
  function Held(b: Book): nat { b.tokens + |b.pages| + |b.acquiring| }

  /** A page entered under a key that already has one: two tokens, one page. */
  predicate Overwrites(b: Book, step: Step) {
    step.OpenPage? && step.i < |b.acquiring| && b.acquiring[step.i] in b.pages
  }

  lemma NextHeld(b: Book, step: Step)
    requires Enabled(b, step)
    ensures Held(Next(b, step)) + (if Overwrites(b, step) then 1 else 0) == Held(b)
    ensures Next(b, step).size == b.size
  {
    if step.OpenPage? && !Overwrites(b, step) { assert |b.pages + {b.acquiring[step.i]}| == |b.pages| + 1; }
    if step.OpenPage? && Overwrites(b, step) { assert b.pages + {b.acquiring[step.i]} == b.pages; }
    if step.FreePage? && step.key in b.pages { assert |b.pages - {step.key}| == |b.pages| - 1; }
  }

  function Run(b: Book, steps: seq<Step>): Option<Book>
    decreases |steps|
  {
    if steps == [] then Some(b)
    else if Enabled(b, steps[0]) then Run(Next(b, steps[0]), steps[1..])
    else None
  }

  /** How many pages a run enters over an existing page. */
  function Overwritten(b: Book, steps: seq<Step>): nat
    requires Run(b, steps).Some?
    decreases |steps|
  {
    if steps == [] then 0
    else (if Overwrites(b, steps[0]) then 1 else 0) + Overwritten(Next(b, steps[0]), steps[1..])
  }

  lemma {:induction false} RunHeld(b: Book, steps: seq<Step>)
    requires Run(b, steps).Some?
    ensures Held(Run(b, steps).value) + Overwritten(b, steps) == Held(b)
    ensures Run(b, steps).value.size == b.size
    decreases |steps|
  {
    if steps != [] {
      NextHeld(b, steps[0]);
      RunHeld(Next(b, steps[0]), steps[1..]);
    }
  }

  /** In every interleaving, tokens, pages and acquirers between the two together never exceed the size,
      and they make up the size if and only if no key was acquired while it was held. */
  lemma TokensNeverExceedSize(size: nat, steps: seq<Step>)
    requires Run(Initial(size), steps).Some?
    ensures var b := Run(Initial(size), steps).value;
            && b.size == size && Held(b) <= size
            && (Held(b) == size <==> Overwritten(Initial(size), steps) == 0)
            && Held(b) == size - Overwritten(Initial(size), steps)
  {
    RunHeld(Initial(size), steps);
  }

  /** Hence freeing never waits for room in the channel while it holds the lock. */
  lemma FreeingNeverBlocks(size: nat, steps: seq<Step>, key: Bytes)
    requires Run(Initial(size), steps).Some?
    ensures Enabled(Run(Initial(size), steps).value, FreePage(key))
  {
    TokensNeverExceedSize(size, steps);
    var b := Run(Initial(size), steps).value;
    if key in b.pages { assert |b.pages| > 0; }
  }

  /** The pages shown as free cover the free tokens, and more: acquirers on their way and tokens lost to
      overwriting look like free pages. */
  lemma FreePagesShown(size: nat, steps: seq<Step>)
    requires Run(Initial(size), steps).Some?
    ensures var b := Run(Initial(size), steps).value;
            size - |b.pages| == b.tokens + |b.acquiring| + Overwritten(Initial(size), steps)
  {
    TokensNeverExceedSize(size, steps);
  }

  /** A routine can start to acquire if and only if pages, acquirers and tokens lost to overwriting leave one of
      the size free. */
  lemma AcquiresExactly(size: nat, steps: seq<Step>, key: Bytes)
    requires Run(Initial(size), steps).Some?
    ensures var b := Run(Initial(size), steps).value;
            Enabled(b, TakeToken(key)) <==> |b.pages| + |b.acquiring| + Overwritten(Initial(size), steps) < size
  {
    TokensNeverExceedSize(size, steps);
  }

  /** After as many overwritten pages as there are tokens, nobody ever acquires again, although every page
      is shown as free. */
  lemma {:induction false} OverwritingStarves(size: nat, steps: seq<Step>, more: seq<Step>)
    requires Run(Initial(size), steps).Some? && Overwritten(Initial(size), steps) == size
    requires Run(Run(Initial(size), steps).value, more).Some?
    ensures var b := Run(Run(Initial(size), steps).value, more).value;
            b.tokens == 0 && b.pages == {} && b.acquiring == [] && forall key :: !Enabled(b, TakeToken(key))
  {
    RunHeld(Initial(size), steps);
    RunHeld(Run(Initial(size), steps).value, more);
  }

  // ------------------------------------------------------------ the operations as they are written

  class RoutineBook {
    const size: nat
    var pages: map<Bytes, Bytes>
    var freeSpace: nat
    /** Routines between token and page. */
    ghost var acquiring: seq<Bytes>

    ghost function View(): Book
      reads this
    {
      Book(size, freeSpace, pages.Keys, acquiring)
    }

    ghost predicate Valid()
      reads this
    {
      Held(View()) <= size && forall key :: key in pages ==> pages[key] == "active"
    }

    constructor (size: nat)
      ensures Valid() && View() == Initial(size)
    {
      this.size := size;
      pages, freeSpace, acquiring := map[], 0, [];
      new;
      for i := 0 to size
        invariant freeSpace == i && pages == map[] && acquiring == []
      {
        freeSpace := freeSpace + 1;
      }
      assert pages.Keys == {};
    }

    /** The receive from the channel; the routine waits until a token is there. */
    method TakeToken(ghost key: Bytes)
      requires Valid() && freeSpace > 0
      modifies this`freeSpace, this`acquiring
      ensures Valid() && View() == Next(old(View()), Step.TakeToken(key))
    {
      freeSpace := freeSpace - 1;
      acquiring := acquiring + [key];
    }

    method Set(key: Bytes, ghost i: nat)
      requires Valid() && i < |acquiring| && acquiring[i] == key
      modifies this`pages, this`acquiring
      ensures Valid() && View() == Next(old(View()), OpenPage(i))
    {
      NextHeld(View(), OpenPage(i));
      pages := pages[key := "active"];
      acquiring := acquiring[..i] + acquiring[i + 1..];
    }

    method FreePage(key: Bytes)
      requires Valid()
      modifies this`pages, this`freeSpace
      ensures Valid() && Enabled(old(View()), Step.FreePage(key)) && View() == Next(old(View()), Step.FreePage(key))
      ensures key !in pages
    {
      if key in pages {
        assert key in pages.Keys && |pages.Keys| > 0;
        NextHeld(View(), Step.FreePage(key));
        assert (pages - {key}).Keys == pages.Keys - {key};
        pages := pages - {key};
        freeSpace := freeSpace + 1;
      }
    }

    /** Every page counts as active. */
    method ActivePages() returns (result: nat)
      requires Valid()
      ensures result == |pages|
    {
      result := 0;
      var keys := pages.Keys;
      while keys != {}
        invariant keys <= pages.Keys && result + |keys| == |pages.Keys|
        decreases |keys|
      {
        var key :| key in keys;
        if pages[key] != "" { result := result + 1; }
        keys := keys - {key};
      }
      assert |pages| == |pages.Keys|;
    }

    method NumFreePages() returns (n: int)
      requires Valid()
      ensures n == size - |pages.Keys| && n >= freeSpace
    {
      assert |pages| == |pages.Keys|;
      n := size - |pages|;
    }
  }
}
