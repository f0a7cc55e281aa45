/** The SM-DP+'s signing keys. A key is used only by handing it a message, every use is on
    record, and one key makes one signature for one message. */
module Signing {
  import opened Octets

  /** r and s, 32 octets each. */
  type Signature = s: Bytes | |s| == 64 witness seq(64, i => 0)

  /** The two SM-DP+ credentials: DPauth opens a session, DPpb binds profiles. */
  datatype Credential = DPauth | DPpb

  /** One use of a key: the message handed to it and what came back. */
  datatype Signed = Signed(key: Credential, message: Bytes, answer: Option<Signature>)

  /** The signature this key has made for this message, if it has. */
  function Recall(log: seq<Signed>, key: Credential, message: Bytes): (r: Option<Signature>)
    ensures r.Some? ==> Signed(key, message, r) in log
    ensures r.None? ==> forall s :: s in log && s.key == key && s.message == message ==> s.answer.None?
  {
    if log == [] then None
    else if log[0].key == key && log[0].message == message && log[0].answer.Some? then log[0].answer
    else Recall(log[1..], key, message)
  }

  /** One key and one message have one signature. */
  ghost predicate Deterministic(log: seq<Signed>) {
    forall s, t :: s in log && t in log && s.key == t.key && s.message == t.message ==>
                     s.answer == t.answer || s.answer.None? || t.answer.None?
  }

  /** rsp_sign, as an object, deterministic as section 3.2 of RFC 6979 makes it: a message
      signed before gets the signature it got, any other the next of `answers`, none where
      signing fails. */
  class Signer {
    const answers: nat -> Option<Signature>
    var log: seq<Signed>

    ghost predicate Valid()
      reads this
    {
      Deterministic(log)
    }

    /** What this key answers to this message, were it asked now. */
    ghost function Answer(key: Credential, message: Bytes): Option<Signature>
      reads this
    {
      var made := Recall(log, key, message);
      if made.Some? then made else answers(|log|)
    }

    constructor (a: nat -> Option<Signature>)
      ensures Valid() && log == [] && answers == a
    {
      answers, log := a, [];
    }

    method Sign(key: Credential, message: Bytes) returns (sig: Option<Signature>)
      requires Valid()
      modifies this
      ensures Valid() && sig == old(Answer(key, message))
      ensures log == old(log) + [Signed(key, message, sig)]
    {
      sig := Recall(log, key, message);
      if sig.None? {
        sig := answers(|log|);
      }
      log := log + [Signed(key, message, sig)];
    }
  }
}
