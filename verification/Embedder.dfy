/** Batched embedding with retries, against a provider that may answer or fail in any way. */
module Embedder {
  import opened Text
  import opened Chunks
  import opened Caching

  /** What one call to the provider comes to. */
  datatype Reply = Vectors(vectors: seq<Vector>) | RateLimit | ApiError | OtherError

  /** What a batch comes to: vectors, an exception, or (with no attempts at all) None. */
  datatype BatchResult = Embedded(vectors: seq<Vector>) | Raised | NoAnswer

  datatype Generator = Generator(batchSize: int, maxRetries: int, retryDelay: real, dimensions: nat, maxTokens: nat)
  {
    function Zero(): Vector {
      Vector(seq(dimensions, _ => 0.0))
    }

    function Truncate(text: string): string {
      if |text| > maxTokens * 4 then text[..maxTokens * 4] else text
    }

    /** A text as it is sent in a batch: empty if it is blank, cut if it is long. */
    function Sent(text: string): string {
      if Strip(text) == "" then "" else Truncate(text)
    }

    function Processed(texts: seq<string>): seq<string> {
      seq(|texts|, i requires 0 <= i < |texts| => Sent(texts[i]))
    }

    /** How many attempts range(max_retries) makes. */
    function Attempts(): nat {
      if maxRetries > 0 then maxRetries else 0
    }
  }

  function Pow2(n: nat): nat {
    if n == 0 then 1 else 2 * Pow2(n - 1)
  }

  lemma {:induction false} Pow2Positive(n: nat)
    ensures Pow2(n) >= 1
  {
    if n > 0 { Pow2Positive(n - 1); }
  }

  /** The back-off after a failed attempt that is not the last. */
  function Delay(gen: Generator, reply: Reply, attempt: nat): real {
    if reply.RateLimit? then gen.retryDelay * Pow2(attempt) as real else gen.retryDelay
  }

  /** What n back-offs may come to: all of them after rate limits. */
  function Budget(gen: Generator, n: nat): real {
    if n == 0 then 0.0 else Budget(gen, n - 1) + gen.retryDelay * Pow2(n - 1) as real
  }

  lemma {:induction false} BudgetExactly(gen: Generator, n: nat)
    ensures Budget(gen, n) == gen.retryDelay * (Pow2(n) - 1) as real
  {
    if n > 0 {
      BudgetExactly(gen, n - 1);
      var d, p := gen.retryDelay, Pow2(n - 1) as real;
      assert (Pow2(n - 1) - 1) as real == p - 1.0 && (Pow2(n) - 1) as real == 2.0 * p - 1.0;
      assert d * (2.0 * p - 1.0) == d * (p - 1.0) + d * p;
    }
  }

  lemma DelayBound(gen: Generator, reply: Reply, attempt: nat)
    requires gen.retryDelay >= 0.0
    ensures 0.0 <= Delay(gen, reply, attempt) <= gen.retryDelay * Pow2(attempt) as real
  {
    Pow2Positive(attempt);
    var d, p := gen.retryDelay, Pow2(attempt) as real;
    assert p >= 1.0;
    assert d * (p - 1.0) >= 0.0 && d * p == d * (p - 1.0) + d;
  }

  lemma {:induction false} BudgetGrows(gen: Generator, a: nat, b: nat)
    requires gen.retryDelay >= 0.0 && a <= b
    ensures Budget(gen, a) <= Budget(gen, b)
    decreases b - a
  {
    if a < b {
      DelayBound(gen, OtherError, b - 1);
      BudgetGrows(gen, a, b - 1);
    }
  }

  /** The back-offs after the first n attempts, when those get the given replies. */
  function Waited(gen: Generator, replies: nat -> Reply, n: nat): real {
    if n == 0 then 0.0 else Waited(gen, replies, n - 1) + Delay(gen, replies(n - 1), n - 1)
  }

  lemma {:induction false} WaitedWithin(gen: Generator, replies: nat -> Reply, n: nat, last: nat)
    requires gen.retryDelay >= 0.0 && n <= last
    ensures 0.0 <= Waited(gen, replies, n) <= Budget(gen, last)
  {
    BudgetGrows(gen, n, last);
    if n > 0 {
      WaitedWithin(gen, replies, n - 1, n - 1);
      DelayBound(gen, replies(n - 1), n - 1);
    }
  }

  /** Back-offs double from one rate limit to the next. */
  lemma {:induction false} WaitedDoubling(gen: Generator, replies: nat -> Reply, n: nat)
    requires forall a: nat :: a < n ==> replies(a).RateLimit?
    ensures Waited(gen, replies, n) == gen.retryDelay * (Pow2(n) - 1) as real
  {
    BudgetExactly(gen, n);
    if n > 0 {
      WaitedDoubling(gen, replies, n - 1);
      BudgetExactly(gen, n - 1);
    }
  }

  /** They are all the same after other failures. */
  lemma {:induction false} WaitedSteady(gen: Generator, replies: nat -> Reply, n: nat)
    requires forall a: nat :: a < n ==> !replies(a).RateLimit?
    ensures Waited(gen, replies, n) == gen.retryDelay * n as real
  {
    if n > 0 {
      WaitedSteady(gen, replies, n - 1);
      assert n as real == (n - 1) as real + 1.0;
    }
  }

  /** How many attempts are followed by another: those before the first answer, or all but the last. */
  function Failures(first: Option<nat>, retries: int): nat {
    if first.Some? then first.value else if retries > 0 then retries - 1 else 0
  }

  /** The provider, which may answer every call differently: batch(s, texts, a) to attempt a at the batch that
      starts at chunk s, one(i, text, a) to attempt a at the text of chunk i by itself. */
  datatype Provider = Provider(batch: (nat, seq<string>, nat) -> Reply, one: (nat, string, nat) -> Reply)

  /** An answer with at least one vector: generate_embedding takes the first. */
  predicate Answered(reply: Reply) {
    reply.Vectors? && reply.vectors != []
  }

  /** The first attempt below n at a text by itself that is answered. */
  function FirstAlone(provider: Provider, i: nat, sent: string, n: nat): (first: Option<nat>)
    ensures first.Some? ==> first.value < n && Answered(provider.one(i, sent, first.value))
                            && forall a: nat :: a < first.value ==> !Answered(provider.one(i, sent, a))
    ensures first.None? ==> forall a: nat :: a < n ==> !Answered(provider.one(i, sent, a))
  {
    if n == 0 then None
    else
      var before := FirstAlone(provider, i, sent, n - 1);
      if before.Some? then before else if Answered(provider.one(i, sent, n - 1)) then Some(n - 1) else None
  }

  /** What one text comes to: the first vector of the first answer, or None when there is no answer. */
  function Single(gen: Generator, provider: Provider, i: nat, text: string): Option<Vector> {
    var sent := gen.Truncate(text);
    match FirstAlone(provider, i, sent, gen.Attempts())
    case None => None
    case Some(a) => Some(provider.one(i, sent, a).vectors[0])
  }

  /** The retry loop for one text. */
  method GenerateEmbedding(gen: Generator, provider: Provider, i: nat, text: string)
    returns (embedding: Option<Vector>, slept: real)
    requires gen.retryDelay >= 0.0
    ensures embedding == Single(gen, provider, i, text)
    ensures var sent := gen.Truncate(text);
      slept == Waited(gen, (a: nat) => provider.one(i, sent, a),
                      Failures(FirstAlone(provider, i, sent, gen.Attempts()), gen.maxRetries))
    ensures gen.maxRetries >= 1 ==> 0.0 <= slept <= Budget(gen, gen.maxRetries - 1)
  {
    slept := 0.0;
    var sent := gen.Truncate(text);
    ghost var replies := (a: nat) => provider.one(i, sent, a);
    for attempt := 0 to gen.Attempts()
      invariant (attempt == 0 || attempt < gen.maxRetries) && slept == Waited(gen, replies, attempt)
      invariant forall a: nat :: a < attempt ==> !Answered(provider.one(i, sent, a))
    {
      var reply := provider.one(i, sent, attempt);
      WaitedWithin(gen, replies, attempt, gen.maxRetries - 1);
      if Answered(reply) {
        return Some(reply.vectors[0]), slept;
      }
      if attempt == gen.maxRetries - 1 {
        return None, slept;
      }
      slept := slept + Delay(gen, reply, attempt);
    }
    return None, slept;
  }

  /** What a text comes to when its batch is processed one by one. */
  function Alone(gen: Generator, provider: Provider, i: nat, text: string): Vector {
    if Strip(text) == "" then gen.Zero()
    else match Single(gen, provider, i, text) case Some(v) => v case None => gen.Zero()
  }

  function Individually(gen: Generator, provider: Provider, start: nat, texts: seq<string>): seq<Vector> {
    seq(|texts|, i requires 0 <= i < |texts| => Alone(gen, provider, start + i, texts[i]))
  }

  method ProcessIndividually(gen: Generator, provider: Provider, start: nat, texts: seq<string>)
    returns (embeddings: seq<Vector>)
    requires gen.retryDelay >= 0.0
    ensures embeddings == Individually(gen, provider, start, texts)
  {
    embeddings := [];
    for i := 0 to |texts|
      invariant |embeddings| == i
      invariant forall j :: 0 <= j < i ==> embeddings[j] == Alone(gen, provider, start + j, texts[j])
    {
      if Strip(texts[i]) == "" {
        embeddings := embeddings + [gen.Zero()];
        continue;
      }
      var embedding, _ := GenerateEmbedding(gen, provider, start + i, texts[i]);
      match embedding {
        case Some(vector) => embeddings := embeddings + [vector];
        case None => embeddings := embeddings + [gen.Zero()];
      }
    }
  }

  /** The first attempt below n at a batch that is answered. */
  function FirstAnswer(provider: Provider, start: nat, sent: seq<string>, n: nat): (first: Option<nat>)
    ensures first.Some? ==> first.value < n && provider.batch(start, sent, first.value).Vectors?
                            && forall a: nat :: a < first.value ==> !provider.batch(start, sent, a).Vectors?
    ensures first.None? ==> forall a: nat :: a < n ==> !provider.batch(start, sent, a).Vectors?
  {
    if n == 0 then None
    else
      var before := FirstAnswer(provider, start, sent, n - 1);
      if before.Some? then before else if provider.batch(start, sent, n - 1).Vectors? then Some(n - 1) else None
  }

  /** What a batch comes to: the first answer; if there is none, an exception after a last rate limit, and else
      its texts one by one. */
  function Outcome(gen: Generator, provider: Provider, start: nat, texts: seq<string>): BatchResult {
    var sent := gen.Processed(texts);
    if gen.maxRetries <= 0 then NoAnswer
    else
      match FirstAnswer(provider, start, sent, gen.Attempts())
      case Some(a) => Embedded(provider.batch(start, sent, a).vectors)
      case None =>
        if provider.batch(start, sent, gen.maxRetries - 1).RateLimit? then Raised
        else Embedded(Individually(gen, provider, start, sent))
  }

  /** The retry loop for a batch. */
  method GenerateBatch(gen: Generator, provider: Provider, start: nat, texts: seq<string>)
    returns (result: BatchResult, slept: real)
    requires gen.retryDelay >= 0.0
    ensures result == Outcome(gen, provider, start, texts)
    ensures var sent := gen.Processed(texts);
      slept == Waited(gen, (a: nat) => provider.batch(start, sent, a),
                      Failures(FirstAnswer(provider, start, sent, gen.Attempts()), gen.maxRetries))
    ensures gen.maxRetries >= 1 ==> 0.0 <= slept <= Budget(gen, gen.maxRetries - 1)
  {
    slept := 0.0;
    if gen.maxRetries <= 0 {
      return NoAnswer, slept;
    }
    var processed := gen.Processed(texts);
    var last: nat := gen.maxRetries - 1;
    ghost var replies := (a: nat) => provider.batch(start, processed, a);
    for attempt := 0 to last
      invariant slept == Waited(gen, replies, attempt)
      invariant forall a: nat :: a < attempt ==> !provider.batch(start, processed, a).Vectors?
    {
      var reply := provider.batch(start, processed, attempt);
      if reply.Vectors? {
        WaitedWithin(gen, replies, attempt, last);
        return Embedded(reply.vectors), slept;
      }
      slept := slept + Delay(gen, reply, attempt);
    }
    WaitedWithin(gen, replies, last, last);
    var reply := provider.batch(start, processed, last);
    match reply {
      case Vectors(vectors) => result := Embedded(vectors);
      case RateLimit => result := Raised;
      case _ =>
        var vectors := ProcessIndividually(gen, provider, start, processed);
        result := Embedded(vectors);
    }
  }

  /** A chunk with its vector; failed marks one whose batch raised. */
  datatype EmbeddedChunk = EmbeddedChunk(chunk: DocumentChunk, embedding: Vector, failed: bool)

  function Batch(chunks: seq<DocumentChunk>, start: nat, size: nat): (batch: seq<DocumentChunk>)
    requires start <= |chunks|
  {
    if start + size <= |chunks| then chunks[start..start + size] else chunks[start..]
  }

  function ContentsOf(chunks: seq<DocumentChunk>): seq<string> {
    seq(|chunks|, i requires 0 <= i < |chunks| => chunks[i].content)
  }

  /** The chunks of one batch with their vectors: as many as zip pairs up, or all of them with zero vectors. */
  function Paired(gen: Generator, batch: seq<DocumentChunk>, result: BatchResult): seq<EmbeddedChunk> {
    if result.Embedded?
    then seq(if |result.vectors| < |batch| then |result.vectors| else |batch|,
             i requires 0 <= i < |result.vectors| && i < |batch| =>
               EmbeddedChunk(batch[i], result.vectors[i], false))
    else seq(|batch|, i requires 0 <= i < |batch| => EmbeddedChunk(batch[i], gen.Zero(), true))
  }

  method EmbedBatch(gen: Generator, batch: seq<DocumentChunk>, result: BatchResult)
    returns (embedded: seq<EmbeddedChunk>)
    ensures embedded == Paired(gen, batch, result)
  {
    embedded := [];
    if result.Embedded? {
      var pairs := if |result.vectors| < |batch| then |result.vectors| else |batch|;
      for i := 0 to pairs
        invariant |embedded| == i
        invariant forall j :: 0 <= j < i ==> embedded[j] == EmbeddedChunk(batch[j], result.vectors[j], false)
      {
        embedded := embedded + [EmbeddedChunk(batch[i], result.vectors[i], false)];
      }
    } else {
      for i := 0 to |batch|
        invariant |embedded| == i
        invariant forall j :: 0 <= j < i ==> embedded[j] == EmbeddedChunk(batch[j], gen.Zero(), true)
      {
        embedded := embedded + [EmbeddedChunk(batch[i], gen.Zero(), true)];
      }
    }
  }

  /** What the batch that starts at s comes to, and what its chunks get. */
  function OutcomeAt(gen: Generator, provider: Provider, chunks: seq<DocumentChunk>, s: nat): BatchResult
    requires gen.batchSize >= 1 && s <= |chunks|
  {
    Outcome(gen, provider, s, ContentsOf(Batch(chunks, s, gen.batchSize)))
  }

  function PairedAt(gen: Generator, provider: Provider, chunks: seq<DocumentChunk>, s: nat): seq<EmbeddedChunk>
    requires gen.batchSize >= 1 && s <= |chunks|
  {
    Paired(gen, Batch(chunks, s, gen.batchSize), OutcomeAt(gen, provider, chunks, s))
  }

  /** The batches from position s on, in order. */
  function EmbeddedFrom(gen: Generator, provider: Provider, chunks: seq<DocumentChunk>, s: nat): seq<EmbeddedChunk>
    requires gen.batchSize >= 1
    decreases |chunks| - s
  {
    if s >= |chunks| then []
    else PairedAt(gen, provider, chunks, s) + EmbeddedFrom(gen, provider, chunks, s + gen.batchSize)
  }

  /** The batch loop; a negative batch size makes no batch at all. */
  method EmbedChunks(gen: Generator, provider: Provider, chunks: seq<DocumentChunk>)
    returns (embedded: seq<EmbeddedChunk>)
    requires gen.batchSize != 0 && gen.retryDelay >= 0.0
    ensures embedded == if gen.batchSize >= 1 then EmbeddedFrom(gen, provider, chunks, 0) else []
  {
    embedded := [];
    if gen.batchSize < 0 { return; }
    var i: nat := 0;
    ghost var all := EmbeddedFrom(gen, provider, chunks, 0);
    AllToDo(gen, provider, chunks);
    while i < |chunks|
      invariant Completes(gen, provider, chunks, i, embedded, all)
    {
      var batch := Batch(chunks, i, gen.batchSize);
      var result, _ := GenerateBatch(gen, provider, i, ContentsOf(batch));
      var more := EmbedBatch(gen, batch, result);
      BatchDone(gen, provider, chunks, i, embedded, more, all);
      embedded := embedded + more;
      i := i + gen.batchSize;
    }
    AllDone(gen, provider, chunks, i, embedded, all);
  }

  ghost predicate IsRest(gen: Generator, provider: Provider, chunks: seq<DocumentChunk>, i: nat,
                         rest: seq<EmbeddedChunk>)
    requires gen.batchSize >= 1
  {
    rest == EmbeddedFrom(gen, provider, chunks, i)
  }

  /** With the batches from position i on, what is done comes to all. */
  ghost predicate Completes(gen: Generator, provider: Provider, chunks: seq<DocumentChunk>, i: nat,
                            done: seq<EmbeddedChunk>, all: seq<EmbeddedChunk>)
    requires gen.batchSize >= 1
  {
    exists rest :: IsRest(gen, provider, chunks, i, rest) && done + rest == all
  }

  lemma AllToDo(gen: Generator, provider: Provider, chunks: seq<DocumentChunk>)
    requires gen.batchSize >= 1
    ensures Completes(gen, provider, chunks, 0, [], EmbeddedFrom(gen, provider, chunks, 0))
  {
    var all := EmbeddedFrom(gen, provider, chunks, 0);
    assert IsRest(gen, provider, chunks, 0, all) && [] + all == all;
  }

  lemma AllDone(gen: Generator, provider: Provider, chunks: seq<DocumentChunk>, i: nat, done: seq<EmbeddedChunk>,
                all: seq<EmbeddedChunk>)
    requires gen.batchSize >= 1 && i >= |chunks| && Completes(gen, provider, chunks, i, done, all)
    ensures done == all
  {
  }

  lemma BatchDone(gen: Generator, provider: Provider, chunks: seq<DocumentChunk>, i: nat,
                  done: seq<EmbeddedChunk>, more: seq<EmbeddedChunk>, all: seq<EmbeddedChunk>)
    requires gen.batchSize >= 1 && i < |chunks| && more == PairedAt(gen, provider, chunks, i)
    requires Completes(gen, provider, chunks, i, done, all)
    ensures Completes(gen, provider, chunks, i + gen.batchSize, done + more, all)
  {
    var later := EmbeddedFrom(gen, provider, chunks, i + gen.batchSize);
    Regroup(done, more, later);
    assert IsRest(gen, provider, chunks, i + gen.batchSize, later);
  }

  lemma Regroup(a: seq<EmbeddedChunk>, b: seq<EmbeddedChunk>, c: seq<EmbeddedChunk>)
    ensures a + (b + c) == a + b + c && a + [] == a
  {
  }

  /** Every answer to a batch has one vector for each text. */
  ghost predicate Complete(provider: Provider) {
    forall s, sent, a :: var reply := provider.batch(s, sent, a); reply.Vectors? ==> |reply.vectors| == |sent|
  }

  lemma PairedLength(gen: Generator, provider: Provider, chunks: seq<DocumentChunk>, s: nat)
    requires gen.batchSize >= 1 && Complete(provider) && s <= |chunks|
    ensures |PairedAt(gen, provider, chunks, s)| == |Batch(chunks, s, gen.batchSize)|
    ensures OutcomeAt(gen, provider, chunks, s).Embedded? ==>
              |OutcomeAt(gen, provider, chunks, s).vectors| == |Batch(chunks, s, gen.batchSize)|
  {
  }

  /** The start of the batch that chunk i is in. */
  function StartOf(gen: Generator, i: nat): (s: nat)
    requires gen.batchSize >= 1
    ensures s <= i < s + gen.batchSize
  {
    i - i % gen.batchSize
  }

  /** What chunk i gets from its batch. */
  function EmbeddedAt(gen: Generator, provider: Provider, chunks: seq<DocumentChunk>, i: nat): EmbeddedChunk
    requires gen.batchSize >= 1 && i < |chunks|
  {
    var s := StartOf(gen, i);
    var result := OutcomeAt(gen, provider, chunks, s);
    if result.Embedded? && i - s < |result.vectors| then EmbeddedChunk(chunks[i], result.vectors[i - s], false)
    else EmbeddedChunk(chunks[i], gen.Zero(), true)
  }

  /** The chunks from position s on, each with what it gets from its batch. */
  ghost predicate InPlace(gen: Generator, provider: Provider, chunks: seq<DocumentChunk>, s: nat,
                          embedded: seq<EmbeddedChunk>)
    requires gen.batchSize >= 1
  {
    && |embedded| == (if s < |chunks| then |chunks| - s else 0)
    && forall i :: s <= i < |chunks| ==> embedded[i - s] == EmbeddedAt(gen, provider, chunks, i)
  }

  /** Whatever fails, no chunk is lost or moved: chunk i of the result is chunk i of the input with what its own
      batch came to at its own place, provided that the answers are complete. */
  lemma {:induction false} NoneLost(gen: Generator, provider: Provider, chunks: seq<DocumentChunk>, s: nat)
    requires gen.batchSize >= 1 && Complete(provider) && s % gen.batchSize == 0
    ensures InPlace(gen, provider, chunks, s, EmbeddedFrom(gen, provider, chunks, s))
    decreases |chunks| - s
  {
    if s < |chunks| {
      var next := s + gen.batchSize;
      NextStart(s, gen.batchSize);
      NoneLost(gen, provider, chunks, next);
      PairedLength(gen, provider, chunks, s);
      var here, later := PairedAt(gen, provider, chunks, s), EmbeddedFrom(gen, provider, chunks, next);
      forall i | s <= i < |chunks| ensures (here + later)[i - s] == EmbeddedAt(gen, provider, chunks, i) {
        if i < next {
          PairedHere(gen, provider, chunks, s, i);
        } else {
          assert (here + later)[i - s] == later[i - next];
        }
      }
    }
  }

  lemma PairedHere(gen: Generator, provider: Provider, chunks: seq<DocumentChunk>, s: nat, i: nat)
    requires gen.batchSize >= 1 && Complete(provider) && s % gen.batchSize == 0
    requires s <= i < |chunks| && i < s + gen.batchSize
    ensures i - s < |PairedAt(gen, provider, chunks, s)|
    ensures PairedAt(gen, provider, chunks, s)[i - s] == EmbeddedAt(gen, provider, chunks, i)
  {
    InBatch(s, i, gen.batchSize);
    PairedLength(gen, provider, chunks, s);
    assert Batch(chunks, s, gen.batchSize)[i - s] == chunks[i];
  }

  lemma NextStart(s: nat, size: nat)
    requires size >= 1 && s % size == 0
    ensures (s + size) % size == 0
  {
    assert s == size * (s / size);
    assert s + size == size * (s / size + 1);
    MultipleMod(s / size + 1, size);
  }

  lemma InBatch(s: nat, i: nat, size: nat)
    requires size >= 1 && s % size == 0 && s <= i < s + size
    ensures i - i % size == s
  {
    var q, r := i / size - s / size, i % size;
    assert s == size * (s / size) && i == size * (i / size) + r;
    assert i - s == size * q + r by { assert size * (i / size) - size * (s / size) == size * q; }
    if q >= 1 { Scaled(size, q, 1); }
    if q <= -1 { Scaled(size, -1, q); }
  }

  lemma Scaled(c: nat, a: int, b: int)
    requires a >= b
    ensures c * a >= c * b
  {
  }

  lemma MultipleMod(k: nat, d: nat)
    requires d >= 1
    ensures (d * k) % d == 0
  {
    var n, q, r := d * k, (d * k) / d, (d * k) % d;
    assert n == d * q + r;
    assert r == d * (k - q);
    if k - q >= 1 { Scaled(d, k - q, 1); }
    if k - q <= -1 { Scaled(d, -1, k - q); }
  }

  /** The provider embeds each text by itself: the vectors it answers with are those of the texts it was sent. */
  ghost predicate PerText(provider: Provider, embed: string -> Vector) {
    && (forall s, sent, a :: provider.batch(s, sent, a).Vectors? ==> EmbedsAll(provider.batch(s, sent, a), sent, embed))
    && (forall i, sent, a :: Answered(provider.one(i, sent, a)) ==> provider.one(i, sent, a).vectors[0] == embed(sent))
  }

  predicate EmbedsAll(reply: Reply, sent: seq<string>, embed: string -> Vector)
    requires reply.Vectors?
  {
    |reply.vectors| == |sent| && forall j :: 0 <= j < |sent| ==> reply.vectors[j] == embed(sent[j])
  }

  lemma PerTextComplete(provider: Provider, embed: string -> Vector)
    requires PerText(provider, embed)
    ensures Complete(provider)
  {
    forall s, sent, a | provider.batch(s, sent, a).Vectors? ensures |provider.batch(s, sent, a).vectors| == |sent| {
      assert EmbedsAll(provider.batch(s, sent, a), sent, embed);
    }
  }

  /** The vector chunk i ends up with: that of its own text as it was sent if its batch was answered, or if it
      was not blank and answered by itself after that failed; and else the zero vector. */
  function Owed(gen: Generator, provider: Provider, embed: string -> Vector, chunks: seq<DocumentChunk>, i: nat): Vector
    requires gen.batchSize >= 1 && i < |chunks|
  {
    var s, text := StartOf(gen, i), gen.Sent(chunks[i].content);
    var sent := gen.Processed(ContentsOf(Batch(chunks, s, gen.batchSize)));
    if FirstAnswer(provider, s, sent, gen.Attempts()).Some? then embed(text)
    else if OutcomeAt(gen, provider, chunks, s).Embedded? && Strip(text) != ""
            && Single(gen, provider, i, text).Some? then embed(text)
    else gen.Zero()
  }

  /** With a provider that embeds each text by itself, every chunk gets the vector of its own text, or zero where
      that failed. */
  lemma OwnVector(gen: Generator, provider: Provider, embed: string -> Vector, chunks: seq<DocumentChunk>, i: nat)
    requires gen.batchSize >= 1 && PerText(provider, embed) && i < |chunks|
    ensures var embedded := EmbeddedFrom(gen, provider, chunks, 0);
      && |embedded| == |chunks| && embedded[i].chunk == chunks[i]
      && embedded[i].embedding == Owed(gen, provider, embed, chunks, i)
  {
    PerTextComplete(provider, embed);
    NoneLost(gen, provider, chunks, 0);
    PlacedAt(gen, provider, chunks, EmbeddedFrom(gen, provider, chunks, 0), i);
    OwedAt(gen, provider, embed, chunks, i);
  }

  lemma PlacedAt(gen: Generator, provider: Provider, chunks: seq<DocumentChunk>, embedded: seq<EmbeddedChunk>, i: nat)
    requires gen.batchSize >= 1 && InPlace(gen, provider, chunks, 0, embedded) && i < |chunks|
    ensures |embedded| == |chunks| && embedded[i] == EmbeddedAt(gen, provider, chunks, i)
    ensures EmbeddedAt(gen, provider, chunks, i).chunk == chunks[i]
  {
    assert embedded[i - 0] == EmbeddedAt(gen, provider, chunks, i);
  }

  lemma OwedAt(gen: Generator, provider: Provider, embed: string -> Vector, chunks: seq<DocumentChunk>, i: nat)
    requires gen.batchSize >= 1 && PerText(provider, embed) && i < |chunks|
    ensures EmbeddedAt(gen, provider, chunks, i).embedding == Owed(gen, provider, embed, chunks, i)
  {
    var s := StartOf(gen, i);
    var texts := ContentsOf(Batch(chunks, s, gen.batchSize));
    var sent := gen.Processed(texts);
    assert texts[i - s] == chunks[i].content && sent[i - s] == gen.Sent(chunks[i].content);
    var answer := FirstAnswer(provider, s, sent, gen.Attempts());
    if answer.Some? {
      assert EmbedsAll(provider.batch(s, sent, answer.value), sent, embed);
    } else {
      SentOnce(gen, chunks[i].content);
      AloneOwed(gen, provider, embed, i, sent[i - s]);
    }
  }

  /** Cutting a text again changes nothing. */
  lemma SentOnce(gen: Generator, text: string)
    ensures gen.Truncate(gen.Sent(text)) == gen.Sent(text)
  {
  }

  lemma AloneOwed(gen: Generator, provider: Provider, embed: string -> Vector, i: nat, text: string)
    requires PerText(provider, embed) && gen.Truncate(text) == text
    ensures Alone(gen, provider, i, text)
         == if Strip(text) != "" && Single(gen, provider, i, text).Some? then embed(text)
            else gen.Zero()
  {
  }

  // ---- The same, of the chunks' own contents.

  /** What is sent for a content: nothing for a blank one, four characters a token of a longer one. */
  predicate IsSent(gen: Generator, content: string, sent: string) {
    if Blank(content) then sent == ""
    else if |content| <= 4 * gen.maxTokens then sent == content
    else sent == content[..4 * gen.maxTokens]
  }

  predicate AreSent(gen: Generator, batch: seq<DocumentChunk>, sent: seq<string>) {
    |sent| == |batch| && forall j :: 0 <= j < |batch| ==> IsSent(gen, batch[j].content, sent[j])
  }

  predicate IsZero(gen: Generator, v: Vector) {
    |v.values| == gen.dimensions && forall j :: 0 <= j < |v.values| ==> v.values[j] == 0.0
  }

  ghost predicate BatchAnswered(gen: Generator, provider: Provider, start: nat, sent: seq<string>) {
    exists a: nat :: a < gen.maxRetries && provider.batch(start, sent, a).Vectors?
  }

  ghost predicate OneAnswered(gen: Generator, provider: Provider, i: nat, sent: string) {
    exists a: nat :: a < gen.maxRetries && Answered(provider.one(i, sent, a))
  }

  /** v is the vector of what was sent for the chunk, if its batch was answered, or else if it was answered when
      sent by itself, which blank texts are not; and otherwise zero. */
  ghost predicate Gets(gen: Generator, provider: Provider, embed: string -> Vector, start: nat, sent: seq<string>,
                       i: nat, v: Vector)
    requires start <= i < start + |sent|
  {
    var own := sent[i - start];
    if BatchAnswered(gen, provider, start, sent)
       || (gen.maxRetries >= 1 && !provider.batch(start, sent, gen.maxRetries - 1).RateLimit?
           && !Blank(own) && OneAnswered(gen, provider, i, own))
    then v == embed(own)
    else IsZero(gen, v)
  }

  /** Which vector chunk i has in the result, for every provider that embeds each text by itself. */
  lemma OwnText(gen: Generator, provider: Provider, embed: string -> Vector, chunks: seq<DocumentChunk>, i: nat)
    returns (sent: seq<string>)
    requires gen.batchSize >= 1 && PerText(provider, embed) && i < |chunks|
    ensures AreSent(gen, Batch(chunks, StartOf(gen, i), gen.batchSize), sent) && i < StartOf(gen, i) + |sent|
    ensures |EmbeddedFrom(gen, provider, chunks, 0)| == |chunks|
    ensures Gets(gen, provider, embed, StartOf(gen, i), sent, i, EmbeddedFrom(gen, provider, chunks, 0)[i].embedding)
  {
    var s := StartOf(gen, i);
    var batch := Batch(chunks, s, gen.batchSize);
    sent := gen.Processed(ContentsOf(batch));
    AllSent(gen, batch);
    OwnVector(gen, provider, embed, chunks, i);
    OwedGets(gen, provider, embed, chunks, i);
  }

  lemma AllSent(gen: Generator, batch: seq<DocumentChunk>)
    ensures AreSent(gen, batch, gen.Processed(ContentsOf(batch)))
  {
    forall j | 0 <= j < |batch| ensures IsSent(gen, batch[j].content, gen.Processed(ContentsOf(batch))[j]) {
      SentExactly(gen, batch[j].content);
    }
  }

  lemma SentExactly(gen: Generator, content: string)
    ensures IsSent(gen, content, gen.Sent(content))
  {
    BlankStrip(content);
  }

  lemma OwedGets(gen: Generator, provider: Provider, embed: string -> Vector, chunks: seq<DocumentChunk>, i: nat)
    requires gen.batchSize >= 1 && i < |chunks|
    ensures var s, sent := StartOf(gen, i), gen.Processed(ContentsOf(Batch(chunks, StartOf(gen, i), gen.batchSize)));
      i < s + |sent| && Gets(gen, provider, embed, s, sent, i, Owed(gen, provider, embed, chunks, i))
  {
    var s, text := StartOf(gen, i), gen.Sent(chunks[i].content);
    var sent := gen.Processed(ContentsOf(Batch(chunks, s, gen.batchSize)));
    assert sent[i - s] == text;
    BlankStrip(text);
    SentOnce(gen, chunks[i].content);
    AnsweredFirst(gen, provider, s, sent);
    AnsweredAlone(gen, provider, i, text);
  }

  lemma AnsweredFirst(gen: Generator, provider: Provider, start: nat, sent: seq<string>)
    ensures FirstAnswer(provider, start, sent, gen.Attempts()).Some? <==> BatchAnswered(gen, provider, start, sent)
  {
  }

  lemma AnsweredAlone(gen: Generator, provider: Provider, i: nat, sent: string)
    requires gen.Truncate(sent) == sent
    ensures Single(gen, provider, i, sent).Some? <==> OneAnswered(gen, provider, i, sent)
  {
  }

  /** With a provider that also answers, chunk i gets the vector of its own content, up to the limit. */
  lemma OwnContent(gen: Generator, provider: Provider, embed: string -> Vector, chunks: seq<DocumentChunk>, i: nat)
    requires gen.batchSize >= 1 && gen.maxRetries >= 1 && PerText(provider, embed) && i < |chunks|
    requires forall s, sent :: provider.batch(s, sent, 0).Vectors?
    ensures var content, embedded := chunks[i].content, EmbeddedFrom(gen, provider, chunks, 0);
      |embedded| == |chunks| && embedded[i].embedding
      == if Blank(content) then embed("")
         else if |content| <= 4 * gen.maxTokens then embed(content)
         else embed(content[..4 * gen.maxTokens])
  {
    var sent := OwnText(gen, provider, embed, chunks, i);
    var s := StartOf(gen, i);
    assert IsSent(gen, Batch(chunks, s, gen.batchSize)[i - s].content, sent[i - s]);
    assert provider.batch(s, sent, 0).Vectors?;
  }
}
