/** A record kept in two flash copies, of which one is rewritten at a time (core/bootctl.c,
    lines 67-115), for any format of the record. */
module DualCopy {
  import opened Types
  import opened Flash

  /** Which bytes are a valid copy, what they decode to, and the record without any. */
  datatype Format<!B> = Format(valid: seq<byte> -> bool, decode: seq<byte> -> B, defaults: B)

  datatype Loaded<+B> = Loaded(rc: int, block: B)

  /** Primary, then backup, then defaults; a copy that could not be read is []. */
  function LoadOf<B>(k: Format<B>, p: seq<byte>, b: seq<byte>): Loaded<B> {
    if k.valid(p) then Loaded(OK, k.decode(p))
    else if k.valid(b) then Loaded(OK, k.decode(b))
    else Loaded(ERR_CRC, k.defaults)
  }

  /** A copy in the middle of an operation: it does not validate, or the operation had not
      begun, or it had finished. */
  predicate Torn<B>(k: Format<B>, x: seq<byte>, was: seq<byte>, n: seq<byte>) { !k.valid(x) || x == was || x == n }

  /** Where a save of n that stops anywhere leaves the copies p and b: the primary is
      rewritten first, and only then the backup. */
  predicate Stopped<B>(k: Format<B>, p: seq<byte>, b: seq<byte>, n: seq<byte>, p': seq<byte>, b': seq<byte>) {
    (b' == b && Torn(k, p', p, n)) || (p' == n && Torn(k, b', b, n))
  }

  /** The backup validates and holds what load returns. */
  ghost predicate BackupCurrent<B>(k: Format<B>, p: seq<byte>, b: seq<byte>) {
    k.valid(b) && k.decode(b) == LoadOf(k, p, b).block
  }

  /** From a current backup, a save that stops anywhere leaves the old or the new record. */
  lemma CrashKeepsOldOrNew<B>(k: Format<B>, p: seq<byte>, b: seq<byte>, n: seq<byte>, p': seq<byte>, b': seq<byte>)
    requires BackupCurrent(k, p, b) && k.valid(n) && Stopped(k, p, b, n, p', b')
    ensures LoadOf(k, p', b') == LoadOf(k, p, b) || LoadOf(k, p', b') == Loaded(OK, k.decode(n))
    ensures LoadOf(k, p', b').rc == OK
  {
    assert k.valid(p') || k.valid(b');
  }

  /** Every stop is safe exactly when the backup alone would do: it is current, or already
      holds the new record, or there is nothing to lose. */
  ghost predicate Expendable<B>(k: Format<B>, p: seq<byte>, b: seq<byte>, n: seq<byte>) {
    if k.valid(b) then k.decode(b) == LoadOf(k, p, b).block || k.decode(b) == k.decode(n) else !k.valid(p)
  }

  lemma CrashSafeExactly<B>(k: Format<B>, p: seq<byte>, b: seq<byte>, n: seq<byte>, erased: seq<byte>)
    requires k.valid(n) && !k.valid(erased)
    ensures Expendable(k, p, b, n) <==>
              forall p', b' :: Stopped(k, p, b, n, p', b') ==>
                LoadOf(k, p', b') == LoadOf(k, p, b) || LoadOf(k, p', b') == Loaded(OK, k.decode(n))
  {
    if !Expendable(k, p, b, n) { assert Stopped(k, p, b, n, erased, b); }
  }

  /** The guarantee does not survive a second interruption: a save cut short in the backup
      phase leaves only the primary, and the next save begins by erasing that. */
  lemma SecondCrashLosesBoth<B>(k: Format<B>, n0: seq<byte>, n1: seq<byte>, n2: seq<byte>, erased: seq<byte>)
    requires k.valid(n0) && k.valid(n1) && k.valid(n2) && !k.valid(erased)
    ensures BackupCurrent(k, n0, n0) && Stopped(k, n0, n0, n1, n1, erased)
    ensures Stopped(k, n1, erased, n2, erased, erased) && LoadOf(k, erased, erased) == Loaded(ERR_CRC, k.defaults)
  {
    assert Torn(k, erased, n0, n1);
  }

  /** One save of a run: the copy it writes and the copies it leaves. */
  datatype Attempt = Attempt(n: seq<byte>, p: seq<byte>, b: seq<byte>)

  /** A save, finished or cut short, that was begun with a current backup. */
  ghost predicate Step<B>(k: Format<B>, p: seq<byte>, b: seq<byte>, a: Attempt) {
    BackupCurrent(k, p, b) && k.valid(a.n) && Stopped(k, p, b, a.n, a.p, a.b)
  }

  ghost predicate Run<B>(k: Format<B>, p: seq<byte>, b: seq<byte>, run: seq<Attempt>)
    decreases |run|
  {
    run == [] || (Step(k, p, b, run[0]) && Run(k, run[0].p, run[0].b, run[1..]))
  }

  /** What load makes of the copies a run leaves. */
  function Final<B>(k: Format<B>, p: seq<byte>, b: seq<byte>, run: seq<Attempt>): Loaded<B>
    decreases |run|
  {
    if run == [] then LoadOf(k, p, b) else Final(k, run[0].p, run[0].b, run[1..])
  }

  ghost predicate Wrote<B>(k: Format<B>, run: seq<Attempt>, block: B)
    decreases |run|
  {
    run != [] && (k.decode(run[0].n) == block || Wrote(k, run[1..], block))
  }

  /** Over such a run load never falls back to the defaults, and never invents a record. */
  lemma {:induction false} RunKeepsABlock<B>(k: Format<B>, p: seq<byte>, b: seq<byte>, run: seq<Attempt>)
    requires Run(k, p, b, run) && run != []
    ensures Final(k, p, b, run).rc == OK
    ensures Final(k, p, b, run) == LoadOf(k, p, b) || Wrote(k, run, Final(k, p, b, run).block)
    decreases |run|
  {
    hide LoadOf, BackupCurrent, Stopped;
    var a, rest := run[0], run[1..];
    CrashKeepsOldOrNew(k, p, b, a.n, a.p, a.b);
    if rest != [] { RunKeepsABlock(k, a.p, a.b, rest); }
  }
}
