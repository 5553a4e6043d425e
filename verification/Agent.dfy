/** The transaction and PIN state of pivy-agent.c: its globals as the fields of one object, its
    request handlers and main loop as steps.  Parsing, replies and logging are not part of it. */
module Agent {
  import opened Bits
  import opened Buffers
  import opened PivToken

  const PROBE_NOPIN: nat := 120
  const PROBE_PIN: nat := 30
  const PROBE_LIMIT: nat := 3
  const TXN_MS: nat := 2000
  const PIN_GRACE_MS: nat := 5000

  /** Why a request failed. */
  datatype Error = Enumeration | NotPresent | CardIO | CakAuth | ParseError | KeyNotFound | KeyNotAllowed
    | InvalidKeys | TokenLocked | InvalidPin | NoPin | PinOther(cause: PinError) | UnknownMessage

  /** The slots that matter to the PIN code. */
  datatype Slot = Signature | KeyMgmt | OtherSlot

  /** Requests, after parsing; slot is the one that holds the requested key, if any. */
  datatype Request =
    | Lock
    | Unlock(pin: Pin)
    | RemoveAll
    | Identities
    | Sign(slot: Option<Slot>)
    | Extension(ext: Extension)
    | Malformed
    | Unknown

  /** The extension requests; x509-certs and unknown names do nothing. */
  datatype Extension = Ecdh(slot: Option<Slot>, bothEc: bool) | Rebox(ours: bool) | Attest(slot: Option<Slot>) | Idle

  /** One round of the main loop: other programs may use the card while no transaction is open;
      then the agent wakes up, with a request or without. */
  datatype Round = Round(elsewhere: Option<Card>, request: Option<Request>)

  function Elapsed(now: nat, since: nat): nat {
    (now - since) % B64
  }

  /** valid_pin: six to eight letters and digits. */
  predicate ValidPin(pin: Pin) {
    6 <= |pin| <= 8 && forall i :: 0 <= i < |pin| ==>
      48 <= pin[i] <= 57 || 97 <= pin[i] <= 122 || 65 <= pin[i] <= 90
  }

  /** A request to unlock with a PIN that is not the card's. */
  ghost predicate WrongUnlock(request: Option<Request>, secret: seq<byte>) {
    request.Some? && request.value.Unlock? && ValidPin(request.value.pin) && Padded(request.value.pin) != secret
  }

  function OneLess(n: nat): nat {
    if n == 0 then 0 else n - 1
  }

  class Agent {
    const reader: Reader
    const sign9d: bool
    var ks: Token?
    var selk: Token?
    var txnOpen: bool
    var txnTimeout: nat
    var lastUpdate: nat
    var lastOp: nat
    var pin: Pin
    var cak: bool
    var probeInterval: nat
    var probeFails: nat

    /** What holds between any two steps of the agent. */
    ghost predicate Valid()
      reads this, reader, ks
    {
      && reader.Valid()
      && (selk == null || selk == ks)
      && (ks != null ==> ks.reader == reader)
      // a transaction is open exactly when the selected token is in one, and no other token is
      && (txnOpen <==> selk != null && selk.inTxn)
      && (ks != null && ks.inTxn ==> selk == ks)
      // a reset is pending only inside a transaction
      && (ks != null && ks.reset ==> ks.inTxn)
      // the held PIN decides how often the card is probed, and two failed probes end it
      && probeInterval == (if pin == [] then PROBE_NOPIN else PROBE_PIN)
      && (txnOpen ==> probeFails == 0)
      && (probeFails >= 2 ==> pin == [])
    }

    /** The card is PIN-verified only inside a transaction that will end in a reset. */
    ghost predicate Contained()
      reads this, reader, ks
    {
      reader.card.verified ==> txnOpen && ks != null && ks.reset
    }

    constructor (reader: Reader, sign9d: bool)
      requires reader.Valid()
      ensures Valid() && this.reader == reader && this.sign9d == sign9d && ks == null && pin == [] && !txnOpen
    {
      this.reader, this.sign9d := reader, sign9d;
      ks, selk, txnOpen, txnTimeout, lastUpdate, lastOp := null, null, false, 0, 0, 0;
      pin, cak, probeInterval, probeFails := [], false, PROBE_NOPIN, 0;
    }

    /** The token is the one there was, or none, or a new one. */
    twostate predicate SameOrNewToken()
      reads this
    {
      ks == old(ks) || ks == null || fresh(ks)
    }

    /** Steps that send no PIN: the card keeps its counter and wins no security status. */
    twostate predicate Harmless()
      reads this, reader, ks
    {
      && Valid() && SameOrNewToken()
      && Weaker(old(reader.card), reader.card)
      && reader.lostReplies == old(reader.lostReplies) && reader.failedResets >= old(reader.failedResets)
      && (pin == old(pin) || pin == [])
      && (old(Contained()) && reader.failedResets == old(reader.failedResets) ==> Contained())
    }

    /** What every request keeps, whatever the card and the reader do. */
    twostate predicate Kept()
      reads this, reader, ks
    {
      && Valid() && SameOrNewToken()
      && reader.card.secret == old(reader.card.secret)
      && reader.lostReplies >= old(reader.lostReplies) && reader.failedResets >= old(reader.failedResets)
      && (old(Contained()) && reader.lostReplies == old(reader.lostReplies) && reader.failedResets == old(reader.failedResets)
          ==> Contained())
      && (old(reader.Floor()) && !reader.mode.Unsupported? ==> reader.Floor())
      && reader.card.retries >= old(reader.card.retries) - 1
      && (reader.card.retries < old(reader.card.retries) && reader.lostReplies == old(reader.lostReplies)
          ==> pin == [] || reader.card.retries == 0)
    }

    /** drop_pin. */
    method DropPin()
      modifies this`pin, this`probeInterval
      ensures pin == [] && probeInterval == PROBE_NOPIN
    {
      pin := [];
      probeInterval := PROBE_NOPIN;
    }

    /** agent_piv_close. */
    method Close(force: bool)
      requires Valid() && txnOpen
      modifies this`txnOpen, reader, ks
      ensures Harmless() && (force ==> !txnOpen)
      ensures txnOpen ==> ks.reset == old(ks.reset)
    {
      var a := reader.Next();
      if force || a.time >= txnTimeout {
        selk.End();
        txnOpen := false;
      }
    }

    /** auth_cak: the card proves that it holds the configured card authentication key. */
    method AuthCak() returns (ok: bool)
      requires selk != null && selk.inTxn
      modifies reader`at, reader`card
      ensures Weaker(old(reader.card), reader.card)
      ensures reader.Perfect() ==> ok
    {
      var slot := reader.Next();
      if !slot.yes {
        return false;
      }
      var a := reader.Exchange();
      ok := a.fault == Fine && a.yes;
    }

    /** piv_find: an error, nothing, or a token that is in no transaction. */
    method Find() returns (err: bool, token: Token?)
      modifies reader`at, reader`card
      ensures token != null ==> fresh(token) && token.reader == reader && !token.inTxn && !token.reset
      ensures err ==> token == null
      ensures reader.Perfect() ==> token != null
      ensures Weaker(old(reader.card), reader.card)
    {
      var a := reader.Exchange();
      err, token := a.fault != Fine, null;
      if !err && a.yes {
        token := new Token(reader);
      }
    }

    /** agent_piv_open. */
    method Open() returns (err: Option<Error>)
      requires Valid()
      modifies this, reader, ks
      ensures Harmless() && (err.None? <==> txnOpen)
      ensures old(txnOpen) ==> err.None? && ks == old(ks) && ks.reset == old(ks.reset) && pin == old(pin)
      ensures err.None? ==> pin == old(pin)
      ensures probeFails == (if txnOpen then 0 else old(probeFails))
      ensures err.Some? ==> err.value in {Enumeration, NotPresent, CardIO, CakAuth}
      ensures err == Some(CakAuth) ==> pin == []
      ensures reader.Perfect() ==> err.None?
    {
      if txnOpen {
        var a := reader.Next();
        txnTimeout := a.time + TXN_MS;
        return None;
      }
      var begun := false;
      if selk != null {
        begun := selk.Begin();
      }
      if begun {
        var selected := reader.Exchange();
        if selected.fault != Fine || !selected.yes {
          selk.End();
          return Some(CardIO);
        }
        err := None;
      } else {
        err := Reopen();
      }
      if err.None? {
        MarkOpen();
      }
    }

    /** The end of agent_piv_open: remember the card's key, note that a transaction is open. */
    method MarkOpen()
      modifies this`cak, this`txnOpen, this`txnTimeout, this`probeFails, reader`at
      ensures txnOpen && probeFails == 0 && (old(cak) ==> cak)
    {
      if !cak {
        var slot := reader.Next();
        cak := slot.yes;
      }
      txnOpen := true;
      var a := reader.Next();
      txnTimeout := a.time + TXN_MS;
      probeFails := 0;
    }

    /** The part of agent_piv_open that searches for the card again. */
    method Reopen() returns (err: Option<Error>)
      requires Valid() && !txnOpen
      modifies this`ks, this`selk, this`pin, this`probeInterval, this`lastUpdate, reader
      ensures reader.Valid() && SameOrNewToken() && Weaker(old(reader.card), reader.card)
      ensures reader.lostReplies == old(reader.lostReplies) && reader.failedResets == old(reader.failedResets)
      ensures err.Some? ==> Valid() && (pin == old(pin) || pin == [])
      ensures err == Some(CakAuth) ==> pin == []
      ensures err.Some? ==> err.value in {Enumeration, NotPresent, CardIO, CakAuth}
      ensures err.None? ==> selk != null && selk == ks && fresh(ks) && ks.reader == reader && ks.inTxn && !ks.reset
      ensures err.None? ==> pin == old(pin) && probeInterval == old(probeInterval)
      ensures reader.Perfect() ==> err.None?
    {
      selk := null;
      assert ks != null ==> !ks.inTxn;  // as piv_release demands
      var failed;
      failed, ks := Find();
      if failed {
        return Some(Enumeration);
      }
      selk := ks;
      if selk == null {
        var a := reader.Next();
        if Elapsed(a.time, lastUpdate) > PIN_GRACE_MS {
          DropPin();
        }
        return Some(NotPresent);
      }
      var begun := selk.Begin();
      if !begun {
        return Some(CardIO);
      }
      err := Introduce();
      if err.Some? {
        selk.End();
        if err == Some(CakAuth) {
          DropPin();
        }
        return;
      }
      var a := reader.Next();
      lastUpdate := a.time;
    }

    /** Select the applet of a card just found, read its certificates, check its key. */
    method Introduce() returns (err: Option<Error>)
      requires selk != null && selk.inTxn
      modifies reader`at, reader`card
      ensures Weaker(old(reader.card), reader.card)
      ensures err.Some? ==> err.value.CardIO? || err.value.CakAuth?
      ensures reader.Perfect() ==> err.None?
    {
      var selected := reader.Exchange();
      if selected.fault != Fine || !selected.yes {
        return Some(CardIO);
      }
      var certs := reader.Exchange();
      if certs.fault != Fine || !certs.yes {
        return Some(CardIO);
      }
      if cak {
        var ok := AuthCak();
        if !ok {
          return Some(CakAuth);
        }
      }
      err := None;
    }

    /** probe_card: an idle check; a second failure in a row forgets the PIN. */
    method Probe()
      requires Valid()
      modifies this, reader, ks
      ensures Harmless()
      ensures probeFails <= old(probeFails) + 1
      ensures probeFails > 0 && !txnOpen && old(probeFails) > 0 ==> pin == [] || old(probeFails) > PROBE_LIMIT
    {
      if probeFails > PROBE_LIMIT {
        return;
      }
      var a := reader.Next();
      lastOp := a.time;
      var err := Open();
      if err.Some? {
        if probeFails > 0 {
          DropPin();
        }
        probeFails := probeFails + 1;
        selk := null;
        return;
      }
      ProbeKey();
    }

    /** The second half of a probe: the card's key. */
    method ProbeKey()
      requires Valid() && txnOpen
      modifies this, reader, ks
      ensures Harmless() && ks == old(ks)
      ensures probeFails == 0 || (probeFails == 1 && pin == [] && !txnOpen)
    {
      if cak {
        var ok := AuthCak();
        if !ok {
          Close(true);
          DropPin();
          selk := null;
          probeFails := probeFails + 1;
          return;
        }
      }
      Close(false);
      probeFails := 0;
    }

    /** wrap_pin_error: a PIN the card rejected, or that would use up the last try, is forgotten. */
    method WrapPinError(e: PinError, retries: nat) returns (err: Option<Error>)
      modifies this`pin, this`probeInterval
      ensures err.None? <==> e == Ok
      ensures (e == Permission && retries > 0) || e == MinRetries ==> pin == [] && probeInterval == PROBE_NOPIN
      ensures !((e == Permission && retries > 0) || e == MinRetries) ==> pin == old(pin) && probeInterval == old(probeInterval)
      ensures err == Some(InvalidPin) <==> e == Permission && retries > 0
      ensures err == Some(TokenLocked) <==> (e == Permission && retries == 0) || e == MinRetries
    {
      if e == Ok {
        return None;
      } else if e == Permission {
        if retries == 0 {
          err := Some(TokenLocked);
        } else {
          err := Some(InvalidPin);
          DropPin();
        }
      } else if e == MinRetries {
        err := Some(TokenLocked);
        DropPin();
      } else {
        err := Some(PinOther(e));
      }
    }

    /** A PIN sent under the cap of one: what every such attempt keeps. */
    method Attempt(candidate: Pin, canskip: bool) returns (e: PinError, remaining: nat)
      requires Valid() && txnOpen
      modifies reader, ks
      ensures Valid() && txnOpen && ks.reader == reader
      ensures reader.card.secret == old(reader.card.secret)
      ensures reader.lostReplies >= old(reader.lostReplies) && reader.failedResets == old(reader.failedResets)
      ensures old(Contained()) && reader.lostReplies == old(reader.lostReplies) ==> Contained()
      ensures old(reader.Floor()) && !reader.mode.Unsupported? ==> reader.Floor()
      ensures reader.card.retries >= old(reader.card.retries) - 1
      ensures reader.card.retries < old(reader.card.retries) && reader.lostReplies == old(reader.lostReplies) ==> e == Permission
      ensures e == Permission ==> remaining == Least(reader.card.retries, 15)
      ensures e == Ok ==> reader.card.verified && reader.card.retries >= old(reader.card.retries)
      ensures reader.Perfect() && Sends(old(reader.card), reader.mode, candidate, Some(1), canskip) ==>
        reader.card == AfterVerify(old(reader.card), reader.max, Padded(candidate))
    {
      var left;
      e, left := selk.VerifyPin(Some(candidate), Some(1), canskip);
      remaining := if left.Some? then left.value else 0;
    }

    /** agent_piv_try_pin: the held PIN, if there is one. */
    method TryPin(canskip: bool) returns (err: Option<Error>)
      requires Valid() && txnOpen
      modifies this`pin, this`probeInterval, reader, ks
      ensures Kept() && txnOpen
      ensures err.None? ==> pin == old(pin) && reader.card.retries >= old(reader.card.retries)
      ensures err.None? && pin != [] ==> reader.card.verified
    {
      if pin == [] {
        return None;
      }
      var e, remaining := Attempt(pin, canskip);
      err := WrapPinError(e, remaining);
    }

    /** The loop at pin_again: a Yubikey slot that wants its PIN every time gets a second round. */
    method UseKey(skippable: bool) returns (err: Option<Error>)
      requires Valid() && txnOpen
      modifies this`pin, this`probeInterval, this`txnOpen, reader, ks
      ensures Kept() && (err.Some? ==> !txnOpen)
    {
      var canskip := skippable;
      while true
        invariant Kept() && txnOpen && pin == old(pin) && reader.card.retries >= old(reader.card.retries)
        decreases canskip
      {
        err := TryPin(canskip);
        if err.Some? {
          Close(true);
          return;
        }
        var a := reader.Exchange();
        var denied := a.fault == Fine && a.sw == SW_SECURITY_STATUS_NOT_SATISFIED;
        if denied && pin != [] && a.yes && canskip {
          canskip := false;
        } else if denied {
          Close(true);
          return Some(NoPin);
        } else if a.fault != Fine || a.sw != SW_NO_ERROR {
          Close(true);
          return Some(CardIO);
        } else {
          Close(false);
          return None;
        }
      }
    }

    /** process_sign_request2; a refused key management key leaves the transaction to its timeout. */
    method Sign(slot: Option<Slot>) returns (err: Option<Error>)
      requires Valid()
      modifies this, reader, ks
      ensures Kept()
      ensures err.Some? && txnOpen ==> slot.None? || (slot == Some(KeyMgmt) && !sign9d)
      ensures slot == Some(KeyMgmt) && !sign9d ==> Harmless() && err.Some?
    {
      err := Open();
      if err.Some? {
        return;
      }
      if slot.None? {
        Close(false);
        return Some(KeyNotFound);
      }
      if slot.value == KeyMgmt && !sign9d {
        return Some(KeyNotAllowed);
      }
      err := UseKey(slot.value != Signature);
    }

    /** process_ext_ecdh. */
    method Ecdh(slot: Option<Slot>, bothEc: bool) returns (err: Option<Error>)
      requires Valid()
      modifies this, reader, ks
      ensures Kept()
      ensures err.Some? && txnOpen ==> err.value.KeyNotFound? || err.value.InvalidKeys?
      ensures slot.None? || !bothEc ==> Harmless() && err.Some?
    {
      err := Open();
      if err.Some? {
        return;
      }
      if slot.None? {
        Close(false);
        return Some(KeyNotFound);
      }
      if !bothEc {
        Close(false);
        return Some(InvalidKeys);
      }
      err := UseKey(slot.value != Signature);
    }

    /** process_ext_rebox, for a box whose slot is already loaded. */
    method Rebox(ours: bool) returns (err: Option<Error>)
      requires Valid()
      modifies this, reader, ks
      ensures Kept() && (ours && err.Some? ==> !txnOpen)
    {
      if !ours {
        return Some(KeyNotFound);
      }
      err := Open();
      if err.None? {
        err := OpenBox();
      }
    }

    /** The box is opened with the PIN forced. */
    method OpenBox() returns (err: Option<Error>)
      requires Valid() && txnOpen
      modifies this`pin, this`probeInterval, this`txnOpen, reader, ks
      ensures Kept() && (err.Some? ==> !txnOpen)
    {
      err := TryPin(false);
      if err.Some? {
        Close(true);
        return;
      }
      var a := reader.Exchange();
      if a.fault != Fine || a.sw != SW_NO_ERROR {
        Close(true);
        return Some(CardIO);
      }
      Close(false);
    }

    /** process_ext_attest: two card commands, no PIN. */
    method Attest(slot: Option<Slot>) returns (err: Option<Error>)
      requires Valid()
      modifies this, reader, ks
      ensures Harmless() && (err.Some? && txnOpen ==> slot.None?)
    {
      err := Open();
      if err.Some? {
        return;
      }
      if slot.None? {
        Close(false);
        return Some(KeyNotFound);
      }
      var cert := reader.Exchange();
      if cert.fault == Fine && cert.sw == SW_NO_ERROR {
        var chain := reader.Exchange();
        if chain.fault == Fine && chain.sw == SW_NO_ERROR {
          Close(false);
          return None;
        }
      }
      Close(true);
      err := Some(CardIO);
    }

    /** process_request_identities: a stale list is read again and the card authenticated again. */
    method Identities() returns (err: Option<Error>)
      requires Valid()
      modifies this, reader, ks
      ensures Harmless() && (err.Some? ==> !txnOpen) && (err == Some(CakAuth) ==> pin == [])
    {
      err := Open();
      if err.None? {
        err := ListKeys();
      }
    }

    method ListKeys() returns (err: Option<Error>)
      requires Valid() && txnOpen
      modifies this`pin, this`probeInterval, this`lastUpdate, this`txnOpen, reader, ks
      ensures Harmless() && (err.Some? ==> !txnOpen) && (err == Some(CakAuth) ==> pin == [])
    {
      var now := reader.Next();
      if Elapsed(now.time, lastUpdate) >= probeInterval * 1000 {
        lastUpdate := now.time;
        var _ := reader.Exchange();
        if cak {
          var ok := AuthCak();
          if !ok {
            Close(true);
            DropPin();
            return Some(CakAuth);
          }
        }
      }
      Close(false);
      err := None;
    }

    /** process_lock_agent, unlocking: a PIN is kept only once the card has accepted it. */
    method Unlock(candidate: Pin) returns (err: Option<Error>)
      requires Valid()
      modifies this, reader, ks
      ensures Kept()
      ensures err.None? ==> pin == candidate && ValidPin(candidate)
      ensures err.Some? ==> pin == old(pin) || pin == []
      ensures !ValidPin(candidate) ==> Harmless()
      ensures reader.Perfect() && reader.mode.Unsupported? && ValidPin(candidate) && Padded(candidate) != old(reader.card.secret) ==>
        reader.card.retries == OneLess(old(reader.card.retries))
    {
      if !ValidPin(candidate) {
        return Some(InvalidPin);
      }
      err := Open();
      if err.None? {
        err := UnlockWith(candidate);
      }
    }

    method UnlockWith(candidate: Pin) returns (err: Option<Error>)
      requires Valid() && txnOpen && ValidPin(candidate)
      modifies this`pin, this`probeInterval, this`txnOpen, reader, ks
      ensures Kept()
      ensures err.None? ==> pin == candidate
      ensures err.Some? ==> !txnOpen && (pin == old(pin) || pin == [])
      ensures reader.Perfect() && reader.mode.Unsupported? && Padded(candidate) != old(reader.card.secret) ==>
        reader.card.retries == OneLess(old(reader.card.retries))
    {
      var e, remaining := Attempt(candidate, false);
      if e == Ok {
        Close(false);
        pin := candidate;
        probeInterval := PROBE_PIN;
        return None;
      }
      Close(true);
      err := WrapPinError(e, remaining);
    }

    /** process_message. */
    method Handle(request: Request) returns (err: Option<Error>)
      requires Valid()
      modifies this, reader, ks
      ensures Kept()
      ensures request.Lock? || request.RemoveAll? ==> err.None? && pin == []
      ensures reader.Perfect() && reader.mode.Unsupported? && WrongUnlock(Some(request), old(reader.card.secret)) ==>
        reader.card.retries == OneLess(old(reader.card.retries))
    {
      var now := reader.Next();
      lastOp := now.time;
      err := None;
      match request
      case Lock => DropPin();
      case Unlock(candidate) => err := Unlock(candidate);
      case RemoveAll => DropPin();
      case Identities => err := Identities();
      case Sign(slot) => err := Sign(slot);
      case Extension(ext) => Extend(ext);
      case Malformed => err := Some(ParseError);
      case Unknown => err := Some(UnknownMessage);
    }

    /** process_extension: failures are reported to the client and not to the caller. */
    method Extend(ext: Extension)
      requires Valid()
      modifies this, reader, ks
      ensures Kept() && (ext.Attest? || ext.Idle? ==> Harmless())
    {
      match ext
      case Ecdh(slot, bothEc) => var _ := Ecdh(slot, bothEc);
      case Rebox(ours) => var _ := Rebox(ours);
      case Attest(slot) => var _ := Attest(slot);
      case Idle =>
    }

    /** One round of the main loop: probe if idle, end an expired transaction, serve a request. */
    method Serve(request: Option<Request>)
      requires Valid()
      modifies this, reader, ks
      ensures Kept()
      ensures reader.Perfect() && reader.mode.Unsupported? && WrongUnlock(request, old(reader.card.secret)) ==>
        reader.card.retries == OneLess(old(reader.card.retries))
    {
      Tick();
      if request.Some? {
        var _ := Handle(request.value);
      }
    }

    /** The timers of the main loop. */
    method Tick()
      requires Valid()
      modifies this, reader, ks
      ensures Harmless()
    {
      var now := reader.Next();
      if probeInterval != 0 && Elapsed(now.time, lastOp) >= probeInterval * 1000 {
        Probe();
      }
      if txnOpen && now.time >= txnTimeout {
        Close(true);
      }
    }

    /** The main loop, over any rounds: the transaction state is never wrong, the PIN is verified only
        where a reset will follow, and the last try is never used up. */
    method Run(rounds: seq<Round>)
      requires Valid() && forall r :: r in rounds && r.elsewhere.Some? ==> Returned(r.elsewhere.value, reader.max)
      modifies this, reader, ks
      ensures Valid() && SameOrNewToken()
      ensures reader.lostReplies >= old(reader.lostReplies) && reader.failedResets >= old(reader.failedResets)
      ensures old(Contained()) && reader.lostReplies == old(reader.lostReplies) && reader.failedResets == old(reader.failedResets)
        ==> Contained()
      ensures old(reader.Floor()) && !reader.mode.Unsupported? ==> reader.Floor()
      ensures reader.Perfect() && reader.mode.Unsupported? && AllWrong(rounds, old(reader.card.secret)) ==>
        reader.card.retries == Remaining(old(reader.card.retries), |rounds|)
    {
      for i := 0 to |rounds|
        invariant Valid() && SameOrNewToken()
        invariant reader.lostReplies >= old(reader.lostReplies) && reader.failedResets >= old(reader.failedResets)
        invariant old(Contained()) && reader.lostReplies == old(reader.lostReplies) && reader.failedResets == old(reader.failedResets)
          ==> Contained()
        invariant old(reader.Floor()) && !reader.mode.Unsupported? ==> reader.Floor()
        invariant reader.Perfect() && reader.mode.Unsupported? && AllWrong(rounds, old(reader.card.secret)) ==>
          reader.card.secret == old(reader.card.secret) && reader.card.retries == Remaining(old(reader.card.retries), i)
      {
        if !txnOpen && rounds[i].elsewhere.Some? {
          assert rounds[i] in rounds;
          reader.card := rounds[i].elsewhere.value;
        }
        Serve(rounds[i].request);
      }
    }
  }

  /** Nothing but requests to unlock with a wrong PIN. */
  ghost predicate AllWrong(rounds: seq<Round>, secret: seq<byte>) {
    forall i :: 0 <= i < |rounds| ==> rounds[i].elsewhere.None? && WrongUnlock(rounds[i].request, secret)
  }

  function Remaining(tries: nat, used: nat): nat {
    if tries < used then 0 else tries - used
  }

  /** How other programs leave the card: unverified, with tries left. */
  ghost predicate Returned(c: Card, max: nat) {
    !c.verified && 1 <= c.retries <= max
  }

  /** The whole program: start-up, then any rounds. */
  method Session(reader: Reader, sign9d: bool, rounds: seq<Round>) returns (agent: Agent)
    requires Returned(reader.card, reader.max) && reader.lostReplies == 0 && reader.failedResets == 0
    requires forall r :: r in rounds && r.elsewhere.Some? ==> Returned(r.elsewhere.value, reader.max)
    modifies reader
    ensures agent.reader == reader && agent.Valid()
    ensures reader.lostReplies == 0 && reader.failedResets == 0 ==> agent.Contained()
    ensures !reader.mode.Unsupported? ==> reader.card.retries >= 1
    ensures reader.Perfect() && reader.mode.Unsupported? && AllWrong(rounds, old(reader.card.secret)) ==>
      reader.card.retries == Remaining(old(reader.card.retries), |rounds|)
  {
    agent := new Agent(reader, sign9d);
    var err := agent.Open();
    if err.None? {
      agent.Close(true);
    }
    agent.Run(rounds);
  }

  /** The counterpart: with a card that does not know the empty VERIFY there are rounds, each a request
      to unlock with a wrong PIN, after which no try is left.  So the counter is safe in every
      session exactly for the other cards. */
  method WrongPinsExhaust(reader: Reader, sign9d: bool, wrong: Pin) returns (rounds: seq<Round>, agent: Agent)
    requires Returned(reader.card, reader.max) && reader.lostReplies == 0 && reader.failedResets == 0
    requires reader.Perfect() && reader.mode.Unsupported?
    requires ValidPin(wrong) && Padded(wrong) != reader.card.secret
    modifies reader
    ensures AllWrong(rounds, old(reader.card.secret)) && agent.reader == reader && reader.card.retries == 0
  {
    rounds := seq(reader.card.retries, _ => Round(None, Some(Unlock(wrong))));
    agent := Session(reader, sign9d, rounds);
  }
}
