/** The record layer: key epochs, sequence numbers in both directions, and the budget for dropping
    undecryptable early data. */
module RecordLayer {
  import opened Prelude
  import opened Records

  const SEQ_SOFT_LIMIT: nat := 0xffff_ffff_ffff_0000
  const SEQ_HARD_LIMIT: nat := 0xffff_ffff_ffff_fffe

  datatype Direction = NoKey | Prepared | Active

  /** Encryption under the key of an epoch with a sequence number. */
  type Cipher = (nat, nat, Plain) -> Opaque

  // ---- writing ----

  /** One use of a key: the pair the nonce is made from. */
  datatype Use = Use(epoch: nat, count: nat)

  /** `epoch` counts the encrypters installed so far; `uses` lists the pairs given to them. */
  datatype WriteSide = WriteSide(epoch: nat, count: nat, state: Direction, uses: seq<Use>)

  const FRESH_WRITE := WriteSide(0, 0, NoKey, [])

  datatype WriteEvent = Prepare | Start | Encrypt

  predicate WriteEnabled(w: WriteSide, e: WriteEvent) {
    match e
    case Prepare => true
    case Start => w.state.Prepared?
    case Encrypt => w.state.Active? && w.count < SEQ_HARD_LIMIT
  }

  function WriteStep(w: WriteSide, e: WriteEvent): WriteSide {
    match e
    case Prepare => w.(epoch := w.epoch + 1, count := 0, state := Prepared)
    case Start => w.(state := Active)
    case Encrypt => w.(count := w.count + 1, uses := w.uses + [Use(w.epoch, w.count)])
  }

  ghost predicate WriteReachable(w: WriteSide, events: seq<WriteEvent>, last: WriteSide)
    decreases |events|
  {
    if events == [] then w == last
    else WriteEnabled(w, events[0]) && WriteReachable(WriteStep(w, events[0]), events[1..], last)
  }

  predicate Before(a: Use, b: Use) {
    a.epoch < b.epoch || (a.epoch == b.epoch && a.count < b.count)
  }

  /** The uses are strictly increasing, each sequence number follows its predecessor in the same
      epoch, and the next pair is the successor of the last. */
  ghost predicate Counting(w: WriteSide) {
    && w.count <= SEQ_HARD_LIMIT
    && (forall i, j :: 0 <= i < j < |w.uses| ==> Before(w.uses[i], w.uses[j]))
    && (forall i :: 0 <= i < |w.uses| && w.uses[i].count > 0 ==>
          i > 0 && w.uses[i - 1] == Use(w.uses[i].epoch, w.uses[i].count - 1))
    && (w.count > 0 ==> w.uses != [] && w.uses[|w.uses| - 1] == Use(w.epoch, w.count - 1))
    && (w.count == 0 && w.uses != [] ==> w.uses[|w.uses| - 1].epoch < w.epoch)
  }

  lemma WriteStepCounting(w: WriteSide, e: WriteEvent)
    requires Counting(w) && WriteEnabled(w, e)
    ensures Counting(WriteStep(w, e))
  {
    if e.Encrypt? {
      var next := Use(w.epoch, w.count);
      forall i | 0 <= i < |w.uses| ensures Before(w.uses[i], next) {
        var last := w.uses[|w.uses| - 1];
        assert i == |w.uses| - 1 || Before(w.uses[i], last);
      }
    }
  }

  lemma {:induction false} WriteReachableCounting(w: WriteSide, events: seq<WriteEvent>, last: WriteSide)
    requires Counting(w) && WriteReachable(w, events, last)
    ensures Counting(last)
    decreases |events|
  {
    if events != [] {
      WriteStepCounting(w, events[0]);
      WriteReachableCounting(WriteStep(w, events[0]), events[1..], last);
    }
  }

  lemma {:induction false} UsedBelow(w: WriteSide, i: nat, n: nat)
    requires Counting(w) && i < |w.uses| && n <= w.uses[i].count
    ensures Use(w.uses[i].epoch, n) in w.uses
  {
    if n < w.uses[i].count {
      UsedBelow(w, i - 1, n);
    }
  }

  /** Over any run from a fresh record layer no pair is used twice, every epoch uses an initial segment
      of the sequence numbers, the current one exactly those below `count`, and the counter never passes
      the hard limit. */
  lemma NoncesNeverRepeat(events: seq<WriteEvent>, w: WriteSide)
    requires WriteReachable(FRESH_WRITE, events, w)
    ensures forall i, j :: 0 <= i < j < |w.uses| ==> w.uses[i] != w.uses[j]
    ensures forall u, n: nat :: u in w.uses && n <= u.count ==> Use(u.epoch, n) in w.uses
    ensures forall n: nat :: Use(w.epoch, n) in w.uses <==> n < w.count
    ensures w.count <= 0xffff_ffff_ffff_fffe
  {
    WriteReachableCounting(FRESH_WRITE, events, w);
    assert forall i, j :: 0 <= i < j < |w.uses| ==> Before(w.uses[i], w.uses[j]);
    forall u, n: nat | u in w.uses && n <= u.count ensures Use(u.epoch, n) in w.uses {
      var i :| 0 <= i < |w.uses| && w.uses[i] == u;
      UsedBelow(w, i, n);
    }
    forall n: nat ensures Use(w.epoch, n) in w.uses <==> n < w.count {
      if n < w.count {
        UsedBelow(w, |w.uses| - 1, n);
      }
      if Use(w.epoch, n) in w.uses {
        var i :| 0 <= i < |w.uses| && w.uses[i] == Use(w.epoch, n);
        assert i == |w.uses| - 1 || Before(w.uses[i], w.uses[|w.uses| - 1]);
      }
    }
  }

  // ---- reading ----

  /** What the decrypter of the current epoch says of a record. */
  datatype Opened = Plaintext(message: Plain) | DecryptError | OtherError

  type Opener = (nat, nat, Opaque) -> Opened

  datatype ReadSide = ReadSide(epoch: nat, count: nat, state: Direction, hasDecrypted: bool, trial: Option<nat>)

  datatype Decision = Deliver(message: Plain, wantClose: bool) | Drop | Fail(decryptError: bool)

  /** `decrypt_incoming`, given the decrypter's answer. */
  function AfterDecrypt(r: ReadSide, encr: Opaque, answer: Opened): (ReadSide, Decision) {
    if !r.state.Active? then (r, Deliver(Plain(encr.typ, encr.version, encr.payload), false))
    else
      var len := |encr.payload|;
      match answer
      case Plaintext(message) =>
        (r.(count := r.count + 1, hasDecrypted := true), Deliver(message, r.count == SEQ_SOFT_LIMIT))
      case DecryptError =>
        if r.trial.Some? && len <= r.trial.value then (r.(trial := Some(r.trial.value - len)), Drop)
        else (r, Fail(true))
      case OtherError => (r, Fail(false))
  }

  /** A stretch of records under one key: what was delivered and how many bytes were dropped. It ends
      at the first failure. */
  function Receive(open: Opener, r: ReadSide, records: seq<Opaque>): (ReadSide, seq<Plain>, nat)
    decreases |records|
  {
    if records == [] then (r, [], 0)
    else
      var (r1, d) := AfterDecrypt(r, records[0], open(r.epoch, r.count, records[0]));
      match d
      case Fail(_) => (r1, [], 0)
      case Deliver(m, _) =>
        var (r2, ms, dropped) := Receive(open, r1, records[1..]);
        (r2, [m] + ms, dropped)
      case Drop =>
        var (r2, ms, dropped) := Receive(open, r1, records[1..]);
        (r2, ms, dropped + |records[0].payload|)
  }

  /** Dropped early data is charged to the budget exactly, and only delivered records count. */
  lemma {:induction false} TrialBudget(open: Opener, r: ReadSide, records: seq<Opaque>)
    requires r.state.Active?
    ensures
      var (r', ms, dropped) := Receive(open, r, records);
      && r'.count == r.count + |ms|
      && (r.trial.None? ==> r'.trial.None? && dropped == 0)
      && (r.trial.Some? ==> dropped <= r.trial.value && r'.trial == Some(r.trial.value - dropped))
      && r'.hasDecrypted == (r.hasDecrypted || ms != [])
    decreases |records|
  {
    if records != [] {
      var (r1, d) := AfterDecrypt(r, records[0], open(r.epoch, r.count, records[0]));
      TrialBudget(open, r1, records[1..]);
    }
  }

  /** Before a key is installed records are delivered as they are and nothing is counted. */
  lemma {:induction false} DeliversBeforeKey(open: Opener, r: ReadSide, records: seq<Opaque>)
    requires !r.state.Active?
    ensures
      var (r', ms, dropped) := Receive(open, r, records);
      && r' == r && dropped == 0 && |ms| == |records|
      && forall i :: 0 <= i < |ms| ==> ms[i] == Plain(records[i].typ, records[i].version, records[i].payload)
    decreases |records|
  {
    if records != [] {
      DeliversBeforeKey(open, r, records[1..]);
    }
  }

  function TotalSize(records: seq<Opaque>): nat {
    if records == [] then 0 else |records[0].payload| + TotalSize(records[1..])
  }

  /** Under a key: a record is delivered, and counted, exactly when it opens, with the close of the connection
      wanted at the soft limit; it is dropped, and charged, exactly when it does not decrypt and fits the
      budget; otherwise it fails and nothing changes. */
  lemma DecryptMeaning(r: ReadSide, encr: Opaque, answer: Opened)
    requires r.state.Active?
    ensures
      var (r', d) := AfterDecrypt(r, encr, answer);
      var fits := r.trial.Some? && |encr.payload| <= r.trial.value;
      && (answer.Plaintext? ==>
            && d == Deliver(answer.message, r.count == 0xffff_ffff_ffff_0000)
            && r' == r.(count := r.count + 1, hasDecrypted := true))
      && (answer.DecryptError? && fits ==> d == Drop && r' == r.(trial := Some(r.trial.value - |encr.payload|)))
      && (answer.DecryptError? && !fits ==> d == Fail(true) && r' == r)
      && (answer.OtherError? ==> d == Fail(false) && r' == r)
  {
  }

  lemma {:induction false} DropsAll(open: Opener, r: ReadSide, records: seq<Opaque>)
    requires r.state.Active? && r.trial.Some? && TotalSize(records) <= r.trial.value
    requires forall x <- records :: open(r.epoch, r.count, x).DecryptError?
    ensures Receive(open, r, records) == (r.(trial := Some(r.trial.value - TotalSize(records))), [], TotalSize(records))
    decreases |records|
  {
    if records != [] {
      assert records[0] in records && forall x <- records[1..] :: x in records;
      DropsAll(open, r.(trial := Some(r.trial.value - |records[0].payload|)), records[1..]);
    }
  }

  /** A stretch of records that do not decrypt is dropped whole exactly when it fits the budget. */
  lemma DropsWholeIff(open: Opener, r: ReadSide, records: seq<Opaque>)
    requires r.state.Active? && r.trial.Some?
    requires forall x <- records :: open(r.epoch, r.count, x).DecryptError?
    ensures Receive(open, r, records).2 == TotalSize(records) <==> TotalSize(records) <= r.trial.value
  {
    TrialBudget(open, r, records);
    if TotalSize(records) <= r.trial.value {
      DropsAll(open, r, records);
    }
  }

  /** A prepared key encrypts nothing until it is started. */
  lemma PreparedIsNotUsed(w: WriteSide)
    ensures !WriteEnabled(WriteStep(w, Prepare), Encrypt)
    ensures WriteEnabled(WriteStep(WriteStep(w, Prepare), Start), Encrypt)
  {
  }

  class RecordLayer {
    const seal: Cipher
    const open: Opener
    var writeEpoch: nat
    var writeSeq: nat
    var encryptState: Direction
    var readEpoch: nat
    var readSeq: nat
    var hasDecrypted: bool
    var decryptState: Direction
    var trial: Option<nat>
    ghost var uses: seq<Use>

    constructor (seal: Cipher, open: Opener)
      ensures this.seal == seal && this.open == open
      ensures Writing() == FRESH_WRITE && Reading() == ReadSide(0, 0, NoKey, false, None)
    {
      this.seal, this.open := seal, open;
      writeEpoch, writeSeq, encryptState := 0, 0, NoKey;
      readEpoch, readSeq, hasDecrypted, decryptState, trial := 0, 0, false, NoKey, None;
      uses := [];
    }

    ghost function Writing(): WriteSide
      reads this
    {
      WriteSide(writeEpoch, writeSeq, encryptState, uses)
    }

    ghost function Reading(): ReadSide
      reads this
    {
      ReadSide(readEpoch, readSeq, decryptState, hasDecrypted, trial)
    }

    method PrepareMessageEncrypter()
      modifies this`writeEpoch, this`writeSeq, this`encryptState
      ensures Writing() == WriteStep(old(Writing()), Prepare)
    {
      writeEpoch := writeEpoch + 1;
      writeSeq := 0;
      encryptState := Prepared;
    }

    method StartEncrypting()
      requires WriteEnabled(Writing(), Start)
      modifies this`encryptState
      ensures Writing() == WriteStep(old(Writing()), Start)
    {
      encryptState := Active;
    }

    method SetMessageEncrypter()
      modifies this`writeEpoch, this`writeSeq, this`encryptState
      ensures Writing() == WriteStep(WriteStep(old(Writing()), Prepare), Start)
    {
      PrepareMessageEncrypter();
      StartEncrypting();
    }

    method EncryptOutgoing(plain: Plain) returns (m: Opaque)
      requires WriteEnabled(Writing(), Encrypt)
      modifies this`writeSeq, this`uses
      ensures Writing() == WriteStep(old(Writing()), Encrypt)
      ensures m == seal(old(writeEpoch), old(writeSeq), plain)
    {
      var number := writeSeq;
      writeSeq := writeSeq + 1;
      uses := uses + [Use(writeEpoch, number)];
      m := seal(writeEpoch, number, plain);
    }

    method SetMessageDecrypter(maxTrial: Option<nat>)
      modifies this`readEpoch, this`readSeq, this`decryptState, this`trial
      ensures Reading() == ReadSide(old(readEpoch) + 1, 0, Active, old(hasDecrypted), maxTrial)
    {
      readEpoch := readEpoch + 1;
      readSeq := 0;
      decryptState := Active;
      trial := maxTrial;
    }

    method FinishTrialDecryption()
      modifies this`trial
      ensures Reading() == old(Reading()).(trial := None)
    {
      trial := None;
    }

    method DecryptIncoming(encr: Opaque) returns (d: Decision)
      modifies this`readSeq, this`hasDecrypted, this`trial
      ensures (Reading(), d) == AfterDecrypt(old(Reading()), encr, open(readEpoch, old(readSeq), encr))
    {
      if !decryptState.Active? {
        return Deliver(Plain(encr.typ, encr.version, encr.payload), false);
      }
      var wantClose := readSeq == SEQ_SOFT_LIMIT;
      match open(readEpoch, readSeq, encr) {
        case Plaintext(message) =>
          readSeq := readSeq + 1;
          hasDecrypted := true;
          d := Deliver(message, wantClose);
        case DecryptError =>
          if trial.Some? && |encr.payload| <= trial.value {
            trial := Some(trial.value - |encr.payload|);
            d := Drop;
          } else {
            d := Fail(true);
          }
        case OtherError =>
          d := Fail(false);
      }
    }
  }
}
