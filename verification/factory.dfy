/** The codec registry `Factory<Base>`: a process-wide map from file extension to a
    priority-ordered set of constructors, and `make`, which resolves a file name to the
    first constructor that accepts it.

    A constructor is a function value from the path to either a built image or the
    exception it throws. Static self-registration is modelled as an explicit sequence of
    `Register` updates starting from the empty registry. */
module Factory {
  import opened Results
  import opened Paths

  /** `std::unique_ptr<Base> (*)(Path const&)`: builds an image or throws an `E`. */
  type Ctor<I, E> = Path -> Result<I, E>

  /** One `(priority, constructor)` entry of a `std::map<int, ctor>`. */
  datatype Entry<I, E> = Entry(prio: int, make: Ctor<I, E>)

  predicate Ascending<I, E>(es: seq<Entry<I, E>>) {
    forall i, j :: 0 <= i < j < |es| ==> es[i].prio < es[j].prio
  }

  /** `std::map<int, ctor>`: at most one entry per priority, iterated in ascending order. */
  type PrioMap<I, E> = es: seq<Entry<I, E>> | Ascending(es) witness []

  /** `Factory::data()`: extension (leading dot included) to its constructors. */
  type Registry<I, E> = map<string, PrioMap<I, E>>

  /** `m[q]` when priority `q` is a key of `m`. */
  function Find<I, E>(es: seq<Entry<I, E>>, q: int): (r: Option<Ctor<I, E>>)
    ensures r.Some? <==> exists i :: 0 <= i < |es| && es[i].prio == q
  {
    if |es| == 0 then None
    else if es[0].prio == q then Some(es[0].make)
    else Find(es[1..], q)
  }

  /** `m[p] = c` on a `std::map`: overwrites the entry at `p` or adds one in order. */
  function Insert<I, E>(es: PrioMap<I, E>, p: int, c: Ctor<I, E>): (r: PrioMap<I, E>)
    ensures |r| > 0 && (r[0].prio == p || (|es| > 0 && r[0].prio == es[0].prio))
    ensures forall q :: Find(r, q) == if q == p then Some(c) else Find(es, q)
  {
    if |es| == 0 then [Entry(p, c)]
    else if p < es[0].prio then [Entry(p, c)] + es
    else if p == es[0].prio then [Entry(p, c)] + es[1..]
    else [es[0]] + Insert(es[1..], p, c)
  }

  /** `data()[ext][q]`, if both keys are present. */
  function Lookup<I, E>(reg: Registry<I, E>, ext: string, q: int): Option<Ctor<I, E>> {
    if ext in reg then Find(reg[ext], q) else None
  }

  /** `register_this`: `data()[ext][p] = c` for each extension of the registering class. */
  function Register<I, E>(reg: Registry<I, E>, exts: seq<string>, p: int, c: Ctor<I, E>): (r: Registry<I, E>)
    ensures r.Keys == reg.Keys + set e | e in exts
    ensures forall e, q :: Lookup(r, e, q) == if e in exts && q == p then Some(c) else Lookup(reg, e, q)
    ensures NoEmptyKeys(reg) ==> NoEmptyKeys(r)
    decreases |exts|
  {
    if |exts| == 0 then reg
    else
      var e := exts[0];
      var es := if e in reg then reg[e] else [];
      Register(reg[e := Insert(es, p, c)], exts[1..], p, c)
  }

  /** Every extension present in the registry has at least one constructor. */
  predicate NoEmptyKeys<I, E>(reg: Registry<I, E>) {
    forall e :: e in reg ==> |reg[e]| > 0
  }

  /** A decoder class as seen by the registry: `Derived::extensions`, `Derived::priority`
      and `Derived::make_this`. */
  datatype Codec<I, E> = Codec(extensions: seq<string>, priority: int, make: Ctor<I, E>)

  /** The registry after each class in `cs` has registered itself, in that order. */
  function Build<I, E>(cs: seq<Codec<I, E>>): (r: Registry<I, E>)
    ensures NoEmptyKeys(r)
    ensures forall e :: e in r <==> exists i :: 0 <= i < |cs| && e in cs[i].extensions
  {
    if |cs| == 0 then map[]
    else
      var last := cs[|cs| - 1];
      var r := Register(Build(cs[..|cs| - 1]), last.extensions, last.priority, last.make);
      assert forall i :: 0 <= i < |cs| - 1 ==> cs[..|cs| - 1][i] == cs[i];
      r
  }

  /** What `make` ended with: a built image, the null handle of an empty candidate list,
      "Unsupported extension", or the rethrown exception of a constructor. */
  datatype Outcome<I, E> = Built(image: I) | NoImage | Unsupported | Thrown(error: E)

  /** The outcome together with the priorities of the constructors invoked, in call order. */
  datatype Run<I, E> = Run(outcome: Outcome<I, E>, tried: seq<int>)

  /** The fallback loop of `make` over `es`, with `eptr` the exception caught so far. */
  function TryFrom<I, E>(es: seq<Entry<I, E>>, path: Path, eptr: Option<E>): (r: Run<I, E>)
    ensures |r.tried| <= |es| && forall i :: 0 <= i < |r.tried| ==> r.tried[i] == es[i].prio
    ensures !r.outcome.Unsupported?
    ensures r.outcome.Built? <==> exists i :: 0 <= i < |es| && es[i].make(path).Ok?
    ensures r.outcome.Built? ==>
      && 0 < |r.tried|
      && es[|r.tried| - 1].make(path) == Ok(r.outcome.image)
      && forall i :: 0 <= i < |r.tried| - 1 ==> es[i].make(path).Err?
    ensures !r.outcome.Built? ==> |r.tried| == |es|
    ensures r.outcome.NoImage? <==> |es| == 0 && eptr.None?
    ensures r.outcome.Thrown? ==>
      r.outcome.error == if |es| > 0 then es[|es| - 1].make(path).error else eptr.value
    decreases |es|
  {
    if |es| == 0 then Run(if eptr.Some? then Thrown(eptr.value) else NoImage, [])
    else match es[0].make(path)
      case Ok(img) => Run(Built(img), [es[0].prio])
      case Err(e) =>
        var rest := TryFrom(es[1..], path, Some(e));
        Run(rest.outcome, [es[0].prio] + rest.tried)
  }

  /** `Factory::make(filename)`. */
  function Make<I, E>(reg: Registry<I, E>, filename: Path): (r: Run<I, E>)
    ensures r.outcome.Unsupported? <==> Extension(filename) !in reg
    ensures r.outcome.Unsupported? ==> r.tried == []
    ensures forall i, j :: 0 <= i < j < |r.tried| ==> r.tried[i] < r.tried[j]
    ensures forall i :: 0 <= i < |r.tried| ==> Lookup(reg, Extension(filename), r.tried[i]).Some?
  {
    var ext := Extension(filename);
    if ext !in reg then Run(Unsupported, [])
    else TryFrom(reg[ext], filename, None)
  }

  /** Registering (e, q) again later overwrites: the last class to register wins. */
  lemma {:induction false} BuildLastWins<I, E>(cs: seq<Codec<I, E>>, e: string, q: int, i: nat)
    requires i < |cs| && e in cs[i].extensions && cs[i].priority == q
    requires forall j :: i < j < |cs| ==> !(e in cs[j].extensions && cs[j].priority == q)
    ensures Lookup(Build(cs), e, q) == Some(cs[i].make)
    decreases |cs|
  {
    var init := cs[..|cs| - 1];
    if i < |cs| - 1 {
      assert forall j :: 0 <= j < |init| ==> init[j] == cs[j];
      BuildLastWins(init, e, q, i);
    }
  }

  /** A (extension, priority) pair that no class registers has no constructor. */
  lemma {:induction false} BuildUnregistered<I, E>(cs: seq<Codec<I, E>>, e: string, q: int)
    requires forall j :: 0 <= j < |cs| ==> !(e in cs[j].extensions && cs[j].priority == q)
    ensures Lookup(Build(cs), e, q).None?
    decreases |cs|
  {
    if |cs| > 0 {
      var init := cs[..|cs| - 1];
      assert forall j :: 0 <= j < |init| ==> init[j] == cs[j];
      BuildUnregistered(init, e, q);
    }
  }

  /** A `std::map<int, ctor>` is determined by what it maps each priority to. */
  lemma {:induction false} PrioMapExtensional<I, E>(a: PrioMap<I, E>, b: PrioMap<I, E>)
    requires forall q :: Find(a, q) == Find(b, q)
    ensures a == b
    decreases |a|
  {
    if |b| > 0 {
      assert Find(a, b[0].prio) == Find(b, b[0].prio);
    }
    if |a| > 0 {
      assert Find(a, a[0].prio) == Some(a[0].make);
      assert |b| > 0;
      BelowFirstAbsent(a, b[0].prio);
      BelowFirstAbsent(b, a[0].prio);
      assert a[0].prio == b[0].prio;
      assert a[0] == b[0];
      forall q ensures Find(a[1..], q) == Find(b[1..], q) {
        if q == a[0].prio {
          BelowFirstAbsent(a, q);
          BelowFirstAbsent(b, q);
        } else {
          assert Find(a, q) == Find(a[1..], q);
          assert Find(b, q) == Find(b[1..], q);
        }
      }
      PrioMapExtensional(a[1..], b[1..]);
      assert a == [a[0]] + a[1..];
      assert b == [b[0]] + b[1..];
    }
  }

  /** No priority at or below the first key of an ascending map is found past the first entry,
      and none strictly below it is found at all. */
  lemma BelowFirstAbsent<I, E>(es: PrioMap<I, E>, q: int)
    requires |es| > 0
    ensures q < es[0].prio ==> Find(es, q).None?
    ensures q <= es[0].prio ==> Find(es[1..], q).None?
  {
  }

  /** An unknown extension fails with "Unsupported extension" before any constructor runs. */
  lemma MakeUnknownExtension<I, E>(reg: Registry<I, E>, filename: Path)
    requires Extension(filename) !in reg
    ensures Make(reg, filename) == Run(Unsupported, [])
  {
  }

  /** When the k-th constructor (in priority order) is the first to accept the file, its
      image is returned unchanged, and exactly constructors 0..k have run, once each, in
      ascending priority; none with a larger priority runs. */
  lemma MakeFirstSuccess<I, E>(reg: Registry<I, E>, filename: Path, k: nat)
    requires Extension(filename) in reg
    requires k < |reg[Extension(filename)]|
    requires reg[Extension(filename)][k].make(filename).Ok?
    requires forall i :: 0 <= i < k ==> reg[Extension(filename)][i].make(filename).Err?
    ensures var es := reg[Extension(filename)];
      && Make(reg, filename).outcome == Built(es[k].make(filename).value)
      && |Make(reg, filename).tried| == k + 1
      && forall i :: 0 <= i <= k ==> Make(reg, filename).tried[i] == es[i].prio
  {
  }

  /** When every constructor throws, `make` rethrows the exception of the last one tried,
      the one with the largest priority, after running all of them in order. */
  lemma MakeAllFail<I, E>(reg: Registry<I, E>, filename: Path)
    requires Extension(filename) in reg && |reg[Extension(filename)]| > 0
    requires forall i :: 0 <= i < |reg[Extension(filename)]| ==> reg[Extension(filename)][i].make(filename).Err?
    ensures var es := reg[Extension(filename)];
      && Make(reg, filename).outcome == Thrown(es[|es| - 1].make(filename).error)
      && (forall i :: 0 <= i < |es| ==> es[i].prio <= es[|es| - 1].prio)
      && Make(reg, filename).tried == seq(|es|, i requires 0 <= i < |es| => es[i].prio)
  {
  }

  /** Through registration alone, the null-handle path of `make` is unreachable. */
  lemma MakeNeverNull<I, E>(cs: seq<Codec<I, E>>, filename: Path)
    ensures !Make(Build(cs), filename).outcome.NoImage?
  {
  }
}
