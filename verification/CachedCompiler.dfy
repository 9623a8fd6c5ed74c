// Compiling through a cache.
module CachedCompiler {
  import opened Values
  import opened Minimality
  import opened Snapshot
  import opened Lru
  import opened LruLaws
  import opened Pipeline
  import opened CompileKeys

  datatype Request = Request(source: string, defs: Definitions)

  function KeyFor(q: Request): string {
    CompileKey(q.source, q.defs)
  }

  ghost predicate ProducedFor(c: Compiled, q: Request, lang: Language) {
    Produced(c, q.source, Outputs(q.defs), lang)
  }

  ghost predicate AnswersFor(r: Result<Compiled>, q: Request, lang: Language) {
    CompilesAs(r, q.source, Outputs(q.defs), lang)
  }

  // An item is what compiling one of the requests gave, under that request's key.
  ghost predicate Explained(it: Item<Compiled>, asked: set<Request>, lang: Language) {
    exists q | q in asked :: KeyFor(q) == it.key && ProducedFor(it.value, q, lang)
  }

  ghost predicate AllExplained(l: seq<Item<Compiled>>, asked: set<Request>, lang: Language) {
    forall it | it in l :: Explained(it, asked, lang)
  }

  // Requests with the same key have the same products.
  ghost predicate Interchangeable(asked: set<Request>, lang: Language) {
    forall q, p, c {:trigger ProducedFor(c, q, lang), ProducedFor(c, p, lang)} |
      q in asked && p in asked && KeyFor(q) == KeyFor(p) && ProducedFor(c, q, lang) :: ProducedFor(c, p, lang)
  }

  lemma AdmissibleInterchangeable(asked: set<Request>, lang: Language, sealed: bool)
    requires forall q <- asked :: Admissible(q.source, q.defs, lang.nums, sealed)
    ensures Interchangeable(asked, lang)
  {
    forall q, p, c | q in asked && p in asked && KeyFor(q) == KeyFor(p) && ProducedFor(c, q, lang)
      ensures ProducedFor(c, p, lang)
    {
      CompileKeyExact(q.source, q.defs, p.source, p.defs, lang.nums, sealed);
    }
  }

  // What a request does to the cached items, and what it is answered.
  ghost predicate Served(l: seq<Item<Compiled>>, capacity: nat, q: Request, r: Result<Compiled>,
                         l': seq<Item<Compiled>>, lang: Language)
  {
    var looked := After(l, capacity, Op.Get(KeyFor(q)));
    match Find(l, KeyFor(q))
    case Some(c) => r == Ok(c) && l' == looked
    case None =>
      AnswersFor(r, q, lang) && l' == if r.Ok? then After(looked, capacity, Op.Set(KeyFor(q), r.value)) else looked
  }

  lemma ExplainedAfter(l: seq<Item<Compiled>>, capacity: nat, op: Op<Compiled>, asked: set<Request>,
                       more: set<Request>, lang: Language)
    requires WellFormed(l, capacity) && AllExplained(l, asked, lang) && asked <= more
    requires op.Set? ==> Explained(Item(op.key, op.value), more, lang)
    ensures AllExplained(After(l, capacity, op), more, lang)
  {
    AfterMembers(l, capacity, op);
    forall it | it in l ensures Explained(it, more, lang) {
      var q :| q in asked && KeyFor(q) == it.key && ProducedFor(it.value, q, lang);
      assert q in more;
    }
  }

  // Serving keeps every item explained. The answer is a product of some request with the same key, so it is
  // the right one if requests with the same key are interchangeable.
  lemma ServedHonestly(l: seq<Item<Compiled>>, capacity: nat, q: Request, r: Result<Compiled>, l': seq<Item<Compiled>>,
                       asked: set<Request>, more: set<Request>, lang: Language)
    requires WellFormed(l, capacity) && AllExplained(l, asked, lang) && Served(l, capacity, q, r, l', lang)
    requires asked <= more && q in more
    ensures AllExplained(l', more, lang)
    ensures r.Ok? ==> Explained(Item(KeyFor(q), r.value), more, lang)
    ensures Interchangeable(more, lang) ==> AnswersFor(r, q, lang)
  {
    var looked := After(l, capacity, Op.Get(KeyFor(q)));
    AfterWellFormed(l, capacity, Op.Get(KeyFor(q)));
    ExplainedAfter(l, capacity, Op.Get(KeyFor(q)), asked, more, lang);
    if Find(l, KeyFor(q)).Some? {
      HitIsExplained(l, q, r.value, asked, more, lang);
    } else if r.Ok? {
      assert ProducedFor(r.value, q, lang);
      ExplainedAfter(looked, capacity, Op.Set(KeyFor(q), r.value), more, more, lang);
    }
  }

  lemma HitIsExplained(l: seq<Item<Compiled>>, q: Request, c: Compiled, asked: set<Request>, more: set<Request>,
                       lang: Language)
    requires Distinct(l) && AllExplained(l, asked, lang) && Find(l, KeyFor(q)) == Some(c) && asked <= more && q in more
    ensures Explained(Item(KeyFor(q), c), more, lang)
    ensures Interchangeable(more, lang) ==> ProducedFor(c, q, lang)
  {
    FindExact(l, Item(KeyFor(q), c));
    var p :| p in asked && KeyFor(p) == KeyFor(q) && ProducedFor(c, p, lang);
    assert p in more;
  }

  // If the items were explained, they still are; and if all requests are interchangeable, the answer is right.
  ghost predicate Kept(l: seq<Item<Compiled>>, asked: set<Request>, l': seq<Item<Compiled>>, q: Request,
                       r: Result<Compiled>, lang: Language)
  {
    AllExplained(l, asked, lang) ==>
      AllExplained(l', asked + {q}, lang) && (Interchangeable(asked + {q}, lang) ==> AnswersFor(r, q, lang))
  }

  lemma ServingKeeps(l: seq<Item<Compiled>>, capacity: nat, q: Request, r: Result<Compiled>, l': seq<Item<Compiled>>,
                     asked: set<Request>, lang: Language)
    requires WellFormed(l, capacity) && Served(l, capacity, q, r, l', lang)
    ensures Kept(l, asked, l', q, r, lang)
  {
    if AllExplained(l, asked, lang) { ServedHonestly(l, capacity, q, r, l', asked, asked + {q}, lang); }
  }

  // Requests one after another on a cache that starts empty: the items before and after each, and the answers.
  ghost predicate Session(ls: seq<seq<Item<Compiled>>>, capacity: nat, qs: seq<Request>, rs: seq<Result<Compiled>>,
                          lang: Language) {
    capacity >= 1 && |ls| == |qs| + 1 == |rs| + 1 && ls[0] == [] &&
    forall i {:trigger qs[i]} | 0 <= i < |qs| :: Served(ls[i], capacity, qs[i], rs[i], ls[i + 1], lang)
  }

  ghost predicate AllRight(qs: seq<Request>, rs: seq<Result<Compiled>>, lang: Language)
    requires |qs| == |rs|
  {
    forall i | 0 <= i < |qs| :: AnswersFor(rs[i], qs[i], lang)
  }

  // All requests of a session are among these.
  ghost predicate Over(qs: seq<Request>, asked: set<Request>) {
    forall q <- qs :: q in asked
  }

  ghost predicate Sane(l: seq<Item<Compiled>>, capacity: nat, asked: set<Request>, lang: Language) {
    WellFormed(l, capacity) && AllExplained(l, asked, lang)
  }

  lemma ServedSanely(l: seq<Item<Compiled>>, capacity: nat, q: Request, r: Result<Compiled>, l': seq<Item<Compiled>>,
                     asked: set<Request>, lang: Language)
    requires Sane(l, capacity, asked, lang) && Served(l, capacity, q, r, l', lang)
    requires Interchangeable(asked, lang) && q in asked
    ensures Sane(l', capacity, asked, lang) && AnswersFor(r, q, lang)
  {
    ServedWellFormed(l, capacity, q, r, l', lang);
    ServedHonestly(l, capacity, q, r, l', asked, asked, lang);
  }

  lemma SessionStep(ls: seq<seq<Item<Compiled>>>, capacity: nat, qs: seq<Request>, rs: seq<Result<Compiled>>,
                    asked: set<Request>, lang: Language, i: nat)
    requires Session(ls, capacity, qs, rs, lang) && Interchangeable(asked, lang) && Over(qs, asked)
    requires i < |qs| && Sane(ls[i], capacity, asked, lang)
    ensures Sane(ls[i + 1], capacity, asked, lang) && AnswersFor(rs[i], qs[i], lang)
  {
    assert qs[i] in asked;
    ServedSanely(ls[i], capacity, qs[i], rs[i], ls[i + 1], asked, lang);
  }

  lemma {:induction false} SessionStaysSane(ls: seq<seq<Item<Compiled>>>, capacity: nat, qs: seq<Request>,
                                            rs: seq<Result<Compiled>>, asked: set<Request>, lang: Language, n: nat)
    requires Session(ls, capacity, qs, rs, lang) && n <= |qs| && Interchangeable(asked, lang) && Over(qs, asked)
    ensures Sane(ls[n], capacity, asked, lang)
  {
    if n > 0 {
      SessionStaysSane(ls, capacity, qs, rs, asked, lang, n - 1);
      SessionStep(ls, capacity, qs, rs, asked, lang, n - 1);
    }
  }

  lemma SessionIsRight(ls: seq<seq<Item<Compiled>>>, capacity: nat, qs: seq<Request>, rs: seq<Result<Compiled>>,
                       asked: set<Request>, lang: Language)
    requires Session(ls, capacity, qs, rs, lang) && Interchangeable(asked, lang) && Over(qs, asked)
    ensures AllRight(qs, rs, lang)
  {
    forall i | 0 <= i < |qs| ensures AnswersFor(rs[i], qs[i], lang) {
      SessionStaysSane(ls, capacity, qs, rs, asked, lang, i);
      SessionStep(ls, capacity, qs, rs, asked, lang, i);
    }
  }

  lemma ServedWellFormed(l: seq<Item<Compiled>>, capacity: nat, q: Request, r: Result<Compiled>,
                         l': seq<Item<Compiled>>, lang: Language)
    requires WellFormed(l, capacity) && Served(l, capacity, q, r, l', lang)
    ensures WellFormed(l', capacity)
  {
    var looked := After(l, capacity, Op.Get(KeyFor(q)));
    AfterWellFormed(l, capacity, Op.Get(KeyFor(q)));
    if Find(l, KeyFor(q)).None? && r.Ok? { AfterWellFormed(looked, capacity, Op.Set(KeyFor(q), r.value)); }
  }

  // Every session over some requests gives the right answers if and only if they are interchangeable.
  lemma SessionsExact(asked: set<Request>, capacity: nat, lang: Language)
    requires capacity >= 1
    ensures Interchangeable(asked, lang) <==>
            forall ls, qs, rs {:trigger Session(ls, capacity, qs, rs, lang)} |
              Session(ls, capacity, qs, rs, lang) && Over(qs, asked) :: AllRight(qs, rs, lang)
  {
    if Interchangeable(asked, lang) {
      forall ls, qs, rs | Session(ls, capacity, qs, rs, lang) && Over(qs, asked) ensures AllRight(qs, rs, lang) {
        SessionIsRight(ls, capacity, qs, rs, asked, lang);
      }
    } else {
      var q, p, c :| q in asked && p in asked && KeyFor(q) == KeyFor(p) &&
        ProducedFor(c, q, lang) && !ProducedFor(c, p, lang);
      var ls, rs := WrongSession(q, p, c, capacity, lang);
      WrongAnswer(q, p, c, asked, lang);
    }
  }

  lemma WrongAnswer(q: Request, p: Request, c: Compiled, asked: set<Request>, lang: Language)
    requires q in asked && p in asked && !ProducedFor(c, p, lang)
    ensures Over([q, p], asked) && !AllRight([q, p], [Ok(c), Ok(c)], lang)
  {
    assert !AnswersFor([Ok(c), Ok(c)][1], [q, p][1], lang);
  }

  // A product of the first request is what the second is answered.
  lemma WrongSession(q: Request, p: Request, c: Compiled, capacity: nat, lang: Language)
    returns (ls: seq<seq<Item<Compiled>>>, rs: seq<Result<Compiled>>)
    requires capacity >= 1 && KeyFor(q) == KeyFor(p) && ProducedFor(c, q, lang)
    ensures Session(ls, capacity, [q, p], rs, lang) && rs == [Ok(c), Ok(c)]
  {
    var l1 := After([], capacity, Op.Set(KeyFor(q), c));
    var l2 := After(l1, capacity, Op.Get(KeyFor(p)));
    ls, rs := [[], l1, l2], [Ok(c), Ok(c)];
    FirstServed(q, c, capacity, lang);
    SecondServed(p, c, l1, capacity, lang);
    TwoRequests(q, p, Ok(c), Ok(c), l1, l2, capacity, lang);
  }

  lemma TwoRequests(q: Request, p: Request, r: Result<Compiled>, r': Result<Compiled>, l: seq<Item<Compiled>>,
                    l': seq<Item<Compiled>>, capacity: nat, lang: Language)
    requires capacity >= 1 && Served([], capacity, q, r, l, lang) && Served(l, capacity, p, r', l', lang)
    ensures Session([[], l, l'], capacity, [q, p], [r, r'], lang)
  {
  }

  lemma FirstServed(q: Request, c: Compiled, capacity: nat, lang: Language)
    requires ProducedFor(c, q, lang)
    ensures Served([], capacity, q, Ok(c), After([], capacity, Op.Set(KeyFor(q), c)), lang)
  {
    var none: seq<Item<Compiled>> := [];
    assert Find(none, KeyFor(q)) == None && After(none, capacity, Op.Get(KeyFor(q))) == none;
  }

  lemma SecondServed(p: Request, c: Compiled, l: seq<Item<Compiled>>, capacity: nat, lang: Language)
    requires capacity >= 1 && l == After([], capacity, Op.Set(KeyFor(p), c))
    ensures Served(l, capacity, p, Ok(c), After(l, capacity, Op.Get(KeyFor(p))), lang)
  {
    StoredAlone(capacity, KeyFor(p), c);
  }

  // Where requests are not interchangeable, answers are wrong: once the rule of `FieldNameConfuses` has been
  // compiled over the registry it compiles over, it is answered over the other one too.
  lemma ConfusedAnswer(capacity: nat, r: Result<Compiled>, l: seq<Item<Compiled>>, r': Result<Compiled>,
                       l': seq<Item<Compiled>>, lang: Language)
    requires capacity >= 1
    requires Served([], capacity, Request(PrintExpression(SOURCE, lang.nums), HAS_FIELDS), r, l, lang)
    requires Served(l, capacity, Request(PrintExpression(SOURCE, lang.nums), HAS_IMITATION), r', l', lang)
    ensures r'.Ok? && !AnswersFor(r', Request(PrintExpression(SOURCE, lang.nums), HAS_IMITATION), lang)
  {
    FieldNameConfuses(lang);
    FirstAnswered(Request(PrintExpression(SOURCE, lang.nums), HAS_FIELDS), r, l, capacity, lang);
    SecondAnswered(Request(PrintExpression(SOURCE, lang.nums), HAS_IMITATION), r.value, l, r', l', capacity, lang);
  }

  lemma FirstAnswered(q: Request, r: Result<Compiled>, l: seq<Item<Compiled>>, capacity: nat, lang: Language)
    requires Served([], capacity, q, r, l, lang)
    ensures AnswersFor(r, q, lang) && (r.Ok? ==> l == After([], capacity, Op.Set(KeyFor(q), r.value)))
  {
    var none: seq<Item<Compiled>> := [];
    assert Find(none, KeyFor(q)) == None && After(none, capacity, Op.Get(KeyFor(q))) == none;
  }

  lemma SecondAnswered(p: Request, c: Compiled, l: seq<Item<Compiled>>, r: Result<Compiled>, l': seq<Item<Compiled>>,
                       capacity: nat, lang: Language)
    requires capacity >= 1 && l == After([], capacity, Op.Set(KeyFor(p), c)) && Served(l, capacity, p, r, l', lang)
    ensures r == Ok(c)
  {
    StoredAlone(capacity, KeyFor(p), c);
  }

  lemma StoredAlone(capacity: nat, key: string, c: Compiled)
    requires capacity >= 1
    ensures Find(After([], capacity, Op.Set(key, c)), key) == Some(c)
  {
    assert After([], capacity, Op.Set(key, c)) == [Item(key, c)];
  }

  class CachedRuleCompiler {
    const cache: LruProgramCache<Compiled>
    const lang: Language
    ghost var asked: set<Request>

    ghost predicate Valid()
      reads this, cache
    {
      cache.Valid()
    }

    constructor (cache: LruProgramCache<Compiled>, lang: Language)
      requires cache.Valid()
      ensures Valid() && this.cache == cache && this.lang == lang && asked == {}
    {
      this.cache, this.lang, asked := cache, lang, {};
    }

    // Whether it comes from the cache or not, the result is what compiling the source would give, if all
    // requests so far are interchangeable.
    method Compile(source: string, defs: Definitions) returns (r: Result<Compiled>)
      requires Valid()
      modifies this`asked, cache, cache.repr
      ensures Valid() && fresh(cache.repr - old(cache.repr)) && asked == old(asked) + {Request(source, defs)}
      ensures Served(old(cache.Contents()), cache.capacity, Request(source, defs), r, cache.Contents(), lang)
      ensures Kept(old(cache.Contents()), old(asked), cache.Contents(), Request(source, defs), r, lang)
    {
      ghost var before := cache.Contents();
      r := Answer(source, defs);
      ServingKeeps(before, cache.capacity, Request(source, defs), r, cache.Contents(), asked, lang);
      asked := asked + {Request(source, defs)};
    }

    // The lookup, and on a miss the compilation and the store.
    method Answer(source: string, defs: Definitions) returns (r: Result<Compiled>)
      requires Valid()
      modifies cache, cache.repr
      ensures Valid() && fresh(cache.repr - old(cache.repr))
      ensures WellFormed(old(cache.Contents()), cache.capacity)
      ensures Served(old(cache.Contents()), cache.capacity, Request(source, defs), r, cache.Contents(), lang)
    {
      PairsDistinct(cache.order, cache.items);
      var key := CompileKey(source, defs);
      var hit := cache.Get(key);
      if hit.Some? { return Ok(hit.value); }
      r := CompileAndStore(source, defs, key);
    }

    method CompileAndStore(source: string, defs: Definitions, key: string) returns (r: Result<Compiled>)
      requires Valid()
      modifies cache, cache.repr
      ensures Valid() && fresh(cache.repr - old(cache.repr)) && AnswersFor(r, Request(source, defs), lang)
      ensures cache.Contents() ==
              if r.Err? then old(cache.Contents())
              else After(old(cache.Contents()), cache.capacity, Op.Set(key, r.value))
    {
      r := CompileRule(source, Outputs(defs), lang);
      if r.Ok? { cache.Set(key, r.value); }
    }
  }
}
