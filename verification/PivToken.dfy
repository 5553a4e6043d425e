/** A PIV card behind its reader, and the token operations of piv.c that begin and end transactions
    and present a PIN. */
module PivToken {
  import opened Bits
  import opened Buffers

  const SW_NO_ERROR: nat := 0x9000
  const SW_SECURITY_STATUS_NOT_SATISFIED: nat := 0x6982
  const SW_FILE_INVALID: nat := 0x6983
  const SW_INCORRECT_PIN: nat := 0x63C0
  const SW_WRONG_LENGTH: nat := 0x6700
  const SW_WRONG_DATA: nat := 0x6A80

  /** Status words the PIN code has no case for. */
  type OtherStatus = sw: nat |
    && sw < 0x10000 && sw != SW_NO_ERROR && sw != SW_FILE_INVALID && sw != SW_WRONG_LENGTH && sw != SW_WRONG_DATA
    && sw - sw % 16 != SW_INCORRECT_PIN
    witness SW_SECURITY_STATUS_NOT_SATISFIED

  /** How the applet treats a VERIFY command without data: section 3.2.1 of NIST SP 800-73-4 part 2
      asks for the status of the PIN; some applets do not know the command. */
  datatype EmptyVerify = Answered | Unsupported(wrongLength: bool) | Refused(sw: OtherStatus)

  type Pin = seq<byte>

  /** What the card remembers: its PIN as eight bytes, the security status, the tries left. */
  datatype Card = Card(secret: seq<byte>, verified: bool, retries: nat)

  /** The same card, except that the security status may have been lost. */
  ghost predicate Weaker(a: Card, b: Card) {
    b.secret == a.secret && b.retries == a.retries && (b.verified ==> a.verified)
  }

  function Least(a: nat, b: nat): nat {
    if a < b then a else b
  }

  /** The low nibble of a status word carries the tries left. */
  function TriesLeft(c: Card): nat {
    SW_INCORRECT_PIN + Least(c.retries, 15)
  }

  /** The answer to an empty VERIFY; the card does not change. */
  function EmptyVerifyStatus(c: Card, mode: EmptyVerify): nat {
    match mode
    case Answered => if c.verified then SW_NO_ERROR else if c.retries == 0 then SW_FILE_INVALID else TriesLeft(c)
    case Unsupported(wrongLength) => if wrongLength then SW_WRONG_LENGTH else SW_WRONG_DATA
    case Refused(sw) => sw
  }

  /** The card after a VERIFY with data. */
  function AfterVerify(c: Card, max: nat, data: seq<byte>): Card {
    if c.retries == 0 then c.(verified := false)
    else if data == c.secret then c.(verified := true, retries := max)
    else c.(verified := false, retries := c.retries - 1)
  }

  function VerifyStatus(c: Card, max: nat, data: seq<byte>): nat {
    if c.retries == 0 then SW_FILE_INVALID
    else if data == c.secret then SW_NO_ERROR
    else TriesLeft(AfterVerify(c, max, data))
  }

  /** PINs are sent as eight bytes, filled up with 0xFF. */
  function Padded(pin: Pin): seq<byte>
    requires |pin| <= 8
  {
    pin + seq(8 - |pin|, _ => 0xFF)
  }

  /** A transmission succeeds, fails before the card acts, or fails after it. */
  datatype Fault = Fine | NotExecuted | ReplyLost

  /** One answer of the outside world: PC/SC, the card and the clock.  other is a status with which
      the card turns a PIN down unseen. */
  datatype Answer = Answer(fault: Fault, powerLoss: bool, resets: nat, sw: nat, yes: bool, time: nat, other: Option<OtherStatus>)

  ghost predicate Good(a: Answer) {
    a.fault == Fine && !a.powerLoss && a.resets == 0 && a.sw == SW_NO_ERROR && a.yes && a.other.None?
  }

  /** The card after data was sent to it with the given outcome. */
  function Transmitted(c: Card, max: nat, data: seq<byte>, a: Answer): Card {
    var done := if a.fault == NotExecuted || a.other.Some? then c else AfterVerify(c, max, data);
    if a.fault != Fine && a.powerLoss then done.(verified := false) else done
  }

  /** The card after the end of a transaction: a reset or a loss of power takes the security status. */
  function Ended(c: Card, reset: bool, a: Answer): Card {
    if a.powerLoss || (reset && a.fault == Fine) then c.(verified := false) else c
  }

  /** The reader with its card.  Everything outside the program's control comes from the script. */
  class Reader {
    const script: nat -> Answer
    const max: nat
    const mode: EmptyVerify
    var at: nat
    var card: Card
    /** Replies to a PIN that never arrived, and resets that PC/SC failed to carry out. */
    ghost var lostReplies: nat
    ghost var failedResets: nat

    constructor (script: nat -> Answer, max: nat, mode: EmptyVerify, card: Card)
      ensures this.script == script && this.max == max && this.mode == mode && this.card == card
      ensures at == 0 && lostReplies == 0 && failedResets == 0
    {
      this.script, this.max, this.mode, this.card := script, max, mode, card;
      at, lostReplies, failedResets := 0, 0, 0;
    }

    ghost predicate Valid()
      reads this
    {
      card.retries <= max
    }

    /** At least one try is left, and two while the PIN is verified. */
    ghost predicate Floor()
      reads this
    {
      card.retries >= 1 && (card.verified ==> card.retries >= 2)
    }

    /** Nothing outside ever fails. */
    ghost predicate Perfect() {
      forall k {:trigger script(k)} :: Good(script(k))
    }

    method Next() returns (a: Answer)
      modifies this`at
      ensures a == script(old(at)) && at == old(at) + 1
    {
      a := script(at);
      at := at + 1;
    }

    /** Any command that does not concern the PIN; the card may lose its security status. */
    method Exchange() returns (a: Answer)
      modifies this`at, this`card
      ensures a == script(old(at)) && at == old(at) + 1 && Weaker(old(card), card)
      ensures card == if a.powerLoss then old(card).(verified := false) else old(card)
    {
      a := Next();
      if a.powerLoss {
        card := card.(verified := false);
      }
    }
  }

  /** What piv_verify_pin returns. */
  datatype PinError = Ok | IOError | MinRetries | NotSupported | CardStatus | BadLength | Permission

  /** The empty VERIFY finds the status acceptable, or the card does not understand it. */
  ghost predicate Passes(c: Card, mode: EmptyVerify, cap: Option<nat>, canskip: bool) {
    match mode
    case Answered => if c.verified then !canskip else Least(c.retries, 15) > (if cap.Some? then cap.value else 0)
    case Unsupported(_) => true
    case Refused(_) => false
  }

  /** Whether piv_verify_pin will send the PIN, knowing the card. */
  ghost predicate Sends(c: Card, mode: EmptyVerify, pin: Pin, cap: Option<nat>, canskip: bool) {
    1 <= |pin| <= 8 && ((canskip || (cap.Some? && cap.value > 0)) ==> Passes(c, mode, cap, canskip))
  }

  class Token {
    const reader: Reader
    var inTxn: bool
    var reset: bool

    constructor (reader: Reader)
      ensures this.reader == reader && !inTxn && !reset
    {
      this.reader := reader;
      inTxn, reset := false, false;
    }

    /** piv_txn_begin: a card found reset is reconnected, which resets it once more. */
    method Begin() returns (ok: bool)
      requires !inTxn
      modifies this`inTxn, reader`at, reader`card
      ensures ok == inTxn && Weaker(old(reader.card), reader.card)
      ensures Good(reader.script(old(reader.at))) ==> ok && reader.card == old(reader.card) && reader.at == old(reader.at) + 1
    {
      var a := reader.Exchange();
      var resets := a.resets;
      while resets > 0
        invariant !inTxn && Weaker(old(reader.card), reader.card)
        invariant resets <= a.resets
        invariant Good(a) ==> reader.card == old(reader.card) && reader.at == old(reader.at) + 1
      {
        var reconnect := reader.Next();
        if reconnect.fault != Fine {
          return false;
        }
        reader.card := reader.card.(verified := false);
        resets := resets - 1;
      }
      if a.fault != Fine {
        return false;
      }
      inTxn := true;
      ok := true;
    }

    /** piv_txn_end: the pending reset takes the security status away, unless PC/SC fails; the flag
        is cleared in any case. */
    method End()
      requires inTxn
      modifies this, reader`at, reader`card, reader`failedResets
      ensures !inTxn && !reset && reader.at == old(reader.at) + 1
      ensures reader.card == Ended(old(reader.card), old(reset), reader.script(old(reader.at)))
      ensures reader.failedResets == old(reader.failedResets) + (if old(reset) && reader.script(old(reader.at)).fault != Fine then 1 else 0)
    {
      var a := reader.Exchange();
      if reset {
        if a.fault == Fine {
          reader.card := reader.card.(verified := false);
        } else {
          reader.failedResets := reader.failedResets + 1;
        }
      }
      inTxn := false;
      reset := false;
    }

    /** One empty VERIFY; None for a failed transmission. */
    method Status() returns (sw: Option<nat>)
      requires inTxn
      modifies reader`at, reader`card
      ensures Weaker(old(reader.card), reader.card)
      ensures sw.Some? ==> reader.card == old(reader.card) && sw.value == EmptyVerifyStatus(reader.card, reader.mode)
      ensures sw.None? <==> reader.script(old(reader.at)).fault != Fine
      ensures reader.at == old(reader.at) + 1
    {
      var a := reader.Next();
      if a.fault != Fine {
        if a.powerLoss {
          reader.card := reader.card.(verified := false);
        }
        return None;
      }
      sw := Some(EmptyVerifyStatus(reader.card, reader.mode));
    }

    /** One VERIFY with data. */
    method Present(data: seq<byte>) returns (sw: Option<nat>)
      requires inTxn
      modifies reader`at, reader`card, reader`lostReplies
      ensures reader.card == Transmitted(old(reader.card), reader.max, data, reader.script(old(reader.at)))
      ensures sw.None? <==> reader.script(old(reader.at)).fault != Fine
      ensures sw.Some? ==> sw.value == (if reader.script(old(reader.at)).other.Some? then reader.script(old(reader.at)).other.value
                                        else VerifyStatus(old(reader.card), reader.max, data))
      ensures reader.lostReplies == old(reader.lostReplies) + (if reader.script(old(reader.at)).fault == ReplyLost then 1 else 0)
      ensures reader.at == old(reader.at) + 1
    {
      var a := reader.Next();
      var before := reader.card;
      reader.card := Transmitted(before, reader.max, data, a);
      if a.fault == Fine {
        return Some(if a.other.Some? then a.other.value else VerifyStatus(before, reader.max, data));
      }
      if a.fault == ReplyLost {
        reader.lostReplies := reader.lostReplies + 1;
      }
      sw := None;
    }

    /** The first half of piv_verify_pin: an empty VERIFY, and what to conclude from it.  None means
        that the PIN is to be presented. */
    method Precheck(hasPin: bool, cap: Option<nat>, canskip: bool) returns (stop: Option<PinError>, remaining: Option<nat>)
      requires inTxn && (!hasPin || canskip || (cap.Some? && cap.value > 0))
      modifies reader`at, reader`card
      ensures Weaker(old(reader.card), reader.card) && (stop != Some(IOError) ==> reader.card == old(reader.card))
      ensures stop != Some(IOError) ==> (stop.None? <==> hasPin && Passes(reader.card, reader.mode, cap, canskip))
      ensures stop == Some(Ok) ==> reader.card.verified || (!hasPin && reader.mode.Answered?)
      ensures stop == Some(MinRetries) ==> hasPin && cap.Some? && Least(reader.card.retries, 15) <= cap.value
      ensures stop == Some(MinRetries) || (stop == Some(Ok) && cap.Some? && !reader.card.verified) ==>
        remaining == Some(Least(reader.card.retries, 15))
      ensures stop.None? ==> remaining == cap
      ensures stop != Some(Permission)
      ensures reader.script(old(reader.at)).fault == Fine ==> stop != Some(IOError)
    {
      remaining := cap;
      var sw := Status();
      if sw.None? {
        return Some(IOError), cap;
      }
      if sw.value - sw.value % 16 == SW_INCORRECT_PIN {
        if hasPin && cap.Some? && cap.value > 0 && sw.value % 16 <= cap.value {
          return Some(MinRetries), Some(sw.value % 16);
        } else if !hasPin {
          return Some(Ok), if cap.Some? then Some(sw.value % 16) else None;
        }
      } else if sw.value == SW_WRONG_LENGTH || sw.value == SW_WRONG_DATA {
        if !hasPin {
          return Some(NotSupported), cap;
        }
      } else if sw.value == SW_NO_ERROR {
        if !hasPin || canskip {
          return Some(Ok), cap;
        }
      } else {
        return Some(CardStatus), cap;
      }
      stop := None;
    }

    /** The second half: the PIN itself. */
    method PresentPin(pin: Pin, cap: Option<nat>) returns (err: PinError, remaining: Option<nat>)
      requires inTxn
      modifies this`reset, reader`at, reader`card, reader`lostReplies
      ensures reader.lostReplies >= old(reader.lostReplies) && (old(reset) ==> reset)
      ensures err == BadLength <==> !(1 <= |pin| <= 8)
      ensures err == BadLength ==> reader.card == old(reader.card)
      ensures err == Ok || err == Permission ==> reader.card == AfterVerify(old(reader.card), reader.max, Padded(pin))
      ensures err == CardStatus ==> reader.card == old(reader.card)
      ensures err == CardStatus <==>
        1 <= |pin| <= 8 && reader.script(old(reader.at)).fault == Fine && reader.script(old(reader.at)).other.Some?
      ensures 1 <= |pin| <= 8 ==>
        && reader.card == Transmitted(old(reader.card), reader.max, Padded(pin), reader.script(old(reader.at)))
        && reader.lostReplies == old(reader.lostReplies) + (if reader.script(old(reader.at)).fault == ReplyLost then 1 else 0)
        && (err == IOError <==> reader.script(old(reader.at)).fault != Fine) && reader.at == old(reader.at) + 1
      ensures err == Ok ==> reader.card.verified
      ensures err == Permission ==> !reader.card.verified
      ensures reset == (old(reset) || err == Ok)
      ensures err in {Ok, BadLength, IOError, Permission, CardStatus}
      ensures err != IOError ==> reader.lostReplies == old(reader.lostReplies)
      ensures err == Permission && cap.Some? ==> remaining == Some(Least(reader.card.retries, 15))
    {
      remaining := cap;
      if |pin| < 1 || |pin| > 8 {
        return BadLength, cap;
      }
      var sw := Present(Padded(pin));
      if sw.None? {
        return IOError, cap;
      }
      if sw.value == SW_NO_ERROR {
        reset := true;
        err := Ok;
      } else if sw.value == SW_FILE_INVALID {
        err := Permission;
        if cap.Some? {
          remaining := Some(0);
        }
      } else if sw.value - sw.value % 16 == SW_INCORRECT_PIN {
        err := Permission;
        if cap.Some? {
          remaining := Some(sw.value % 16);
        }
      } else {
        err := CardStatus;
      }
    }

    /** piv_verify_pin.  A cap above zero is a number of tries that must be left over. */
    method VerifyPin(pin: Option<Pin>, cap: Option<nat>, canskip: bool) returns (err: PinError, remaining: Option<nat>)
      requires inTxn && reader.Valid()
      modifies this`reset, reader`at, reader`card, reader`lostReplies
      ensures reader.Valid() && reader.card.secret == old(reader.card.secret) && (old(reset) ==> reset)
      ensures reader.lostReplies >= old(reader.lostReplies)
      // without a transmission error, the PIN is presented exactly when Sends says so
      ensures err != IOError && pin.Some? && Sends(old(reader.card), reader.mode, pin.value, cap, canskip) ==>
        reader.card == (if err == CardStatus then old(reader.card) else AfterVerify(old(reader.card), reader.max, Padded(pin.value)))
      ensures (pin.None? || !Sends(old(reader.card), reader.mode, pin.value, cap, canskip)) ==>
        Weaker(old(reader.card), reader.card)
      // success means verified, and a reset is due for every status won here
      ensures err == Ok && pin.Some? ==> reader.card.verified && reader.card.retries >= old(reader.card.retries)
      ensures reader.lostReplies == old(reader.lostReplies) && reader.card.verified ==> old(reader.card.verified) || reset
      // the counter
      ensures reader.card.retries >= old(reader.card.retries) - 1
      ensures reader.card.retries < old(reader.card.retries) && reader.lostReplies == old(reader.lostReplies) ==> err == Permission
      ensures err == Permission && cap.Some? ==> remaining == Some(Least(reader.card.retries, 15))
      ensures err == MinRetries ==> cap.Some? && remaining == Some(Least(reader.card.retries, 15)) && remaining.value <= cap.value
      ensures pin.None? && cap.Some? && err == Ok && !reader.card.verified ==> remaining == Some(Least(reader.card.retries, 15))
      ensures reader.mode.Answered? && cap.Some? && cap.value >= 1 && old(reader.card.verified ==> reader.card.retries > cap.value)
        ==> reader.card.retries >= Least(cap.value, old(reader.card.retries)) && (reader.card.verified ==> reader.card.retries > cap.value)
      ensures reader.mode.Refused? && (pin.None? || canskip || (cap.Some? && cap.value > 0)) ==> Weaker(old(reader.card), reader.card)
      ensures reader.Perfect() ==> err != IOError
      ensures reader.Perfect() && pin.Some? && Sends(old(reader.card), reader.mode, pin.value, cap, canskip) ==> err != CardStatus
    {
      remaining := cap;
      if pin.None? || canskip || (cap.Some? && cap.value > 0) {
        var stop;
        stop, remaining := Precheck(pin.Some?, cap, canskip);
        if stop.Some? {
          return stop.value, remaining;
        }
      }
      err, remaining := PresentPin(pin.value, cap);
    }
  }

  /** The card takes this PIN. */
  predicate Takes(c: Card, pin: Pin) {
    1 <= |pin| <= 8 && c.retries > 0 && Padded(pin) == c.secret
  }

  /** When a PIN presented to an unverified card leaves it verified after the transaction: exactly if
      the card takes it, keeps its power, and either the reply is lost and no earlier reset is
      carried out, or the reply arrives and the reset it asks for fails. */
  ghost predicate Escapes(c: Card, pin: Pin, pending: bool, a0: Answer, a1: Answer) {
    && Takes(c, pin) && a0.other.None? && !a1.powerLoss
    && ((a0.fault == ReplyLost && !a0.powerLoss && (!pending || a1.fault != Fine)) || (a0.fault == Fine && a1.fault != Fine))
  }

  /** The PIN and the end of the transaction: the card stays verified exactly when Escapes says so. */
  method PresentThenEnd(token: Token, pin: Pin) returns (err: PinError)
    requires token.inTxn && !token.reader.card.verified
    modifies token, token.reader
    ensures !token.inTxn && !token.reset
    ensures token.reader.card.verified <==>
      old(Escapes(token.reader.card, pin, token.reset, token.reader.script(token.reader.at), token.reader.script(token.reader.at + 1)))
  {
    var remaining;
    err, remaining := token.PresentPin(pin, None);
    token.End();
  }

  /** Both ways out happen, for every PIN and every card that takes it. */
  method EscapeHappens(pin: Pin, max: nat, retries: nat, lost: bool) returns (token: Token)
    requires 1 <= |pin| <= 8 && 0 < retries <= max
    ensures token.reader.card.verified && !token.inTxn && !token.reset
    ensures if lost then token.reader.failedResets == 0 else token.reader.lostReplies == 0
  {
    var good := Answer(Fine, false, 0, SW_NO_ERROR, true, 0, None);
    var bad := good.(fault := if lost then ReplyLost else NotExecuted);
    var when := if lost then 1 else 2;
    var reader := new Reader(k => if k == when then bad else good, max, Answered, Card(Padded(pin), false, retries));
    token := new Token(reader);
    var _ := token.Begin();
    var _, _ := token.PresentPin(pin, None);
    token.End();
  }
}
