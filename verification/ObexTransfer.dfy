/** Tracking of OBEX transfers from bus signals (src/modules/bluetooth/linux/core.c), together
    with the one place in src/modules/bluetooth/linux/ftp.c that starts a transfer. The user
    callback does not call back into the module. */
module ObexTransfer {
  import opened ArtikTypes

  const OBEX_TRANSFER := "org.bluez.obex.Transfer1"
  const OBEX_SESSION := "org.bluez.obex.Session1"
  const BLUEZ_OBJECT_PATH := "/org/bluez"

  /** A property of a transfer, by its key; any other key is of no interest. */
  datatype Prop = FileName(s: string) | Name(s: string) | Status(s: string) | Transferred(n: nat) | Size(n: nat) | Other

  /** `artik_bt_ftp_property`. */
  datatype Transfer = Transfer(path: Option<string>, fileName: Option<string>, name: Option<string>,
                               status: Option<string>, transferred: nat, size: nat)

  const BLANK := Transfer(None, None, None, None, 0, 0)

  datatype Iface = Iface(name: string, props: seq<Prop>)

  /** The three signals, and `Started`: the reply to a file request that the module made. */
  datatype Signal =
    | Added(path: string, ifaces: seq<Iface>)
    | Removed(path: string, names: seq<string>)
    | Changed(path: string, iface: string, props: seq<Prop>)
    | Started(path: string, props: seq<Prop>)

  /** The tracked transfer, the session path, and the FTP events handed to the user. */
  datatype State = State(transfer: Transfer, session: string, delivered: seq<Transfer>)

  const INITIAL := State(BLANK, "", [])

  // ---------------------------------------------------------------- the handlers' effect

  function FillOne(t: Transfer, p: Prop): Transfer {
    match p
    case FileName(s) => t.(fileName := Some(s))
    case Name(s) => t.(name := Some(s))
    case Status(s) => t.(status := Some(s))
    case Transferred(n) => t.(transferred := n)
    case Size(n) => t.(size := n)
    case Other => t
  }

  /** `_fill_transfer_property`: later values overwrite earlier ones. */
  function Fill(t: Transfer, props: seq<Prop>): (r: Transfer)
    ensures r.path == t.path
  {
    if props == [] then t else FillOne(Fill(t, props[..|props| - 1]), props[|props| - 1])
  }

  /** One interface of an InterfacesAdded signal. */
  function AddIface(s: State, path: string, i: Iface): State {
    if i.name == OBEX_SESSION then s.(session := path)
    else if i.name == OBEX_TRANSFER then s.(transfer := Fill(BLANK.(path := Some(path)), i.props))
    else s
  }

  function AddIfaces(s: State, path: string, ifaces: seq<Iface>): State {
    if ifaces == [] then s else AddIface(AddIfaces(s, path, ifaces[..|ifaces| - 1]), path, ifaces[|ifaces| - 1])
  }

  /** One interface of an InterfacesRemoved signal; the path is not looked at. */
  function RemoveIface(s: State, name: string): State {
    if name == OBEX_SESSION then s.(session := "")
    else if name == OBEX_TRANSFER then s.(transfer := BLANK)
    else s
  }

  function RemoveIfaces(s: State, names: seq<string>): State {
    if names == [] then s else RemoveIface(RemoveIfaces(s, names[..|names| - 1]), names[|names| - 1])
  }

  /** `_obex_properties_changed`. */
  function Change(s: State, path: string, props: seq<Prop>): State {
    if s.transfer.path != Some(path) then s
    else
      var t := Fill(s.transfer, props);
      var over := t.status == Some("complete") || t.status == Some("error");
      State(if over then t.(path := None) else t, s.session, s.delivered + [t])
  }

  function Apply(s: State, sig: Signal): State {
    match sig
    case Added(path, ifaces) => AddIfaces(s, path, ifaces)
    case Removed(_, names) => RemoveIfaces(s, names)
    case Changed(path, iface, props) =>
      if BLUEZ_OBJECT_PATH <= path && iface == OBEX_TRANSFER then Change(s, path, props) else s
    case Started(path, props) => s.(transfer := Fill(s.transfer.(path := Some(path)), props))
  }

  function RunSignals(sigs: seq<Signal>): State {
    if sigs == [] then INITIAL else Apply(RunSignals(sigs[..|sigs| - 1]), sigs[|sigs| - 1])
  }

  // ---------------------------------------------------------------- reading a run of signals

  /** A change of the properties of some transfer. */
  predicate IsObexChange(sig: Signal) {
    sig.Changed? && "/org/bluez" <= sig.path && sig.iface == "org.bluez.obex.Transfer1"
  }

  /** A transfer whose last status is one of the two that end it. */
  predicate Terminal(t: Transfer) {
    t.status == Some("complete") || t.status == Some("error")
  }

  predicate Adds(sig: Signal) {
    || sig.Started?
    || (sig.Added? && exists i :: 0 <= i < |sig.ifaces| && sig.ifaces[i].name == "org.bluez.obex.Transfer1")
  }

  /** The path of the transfer most recently added. */
  function LatestAdded(sigs: seq<Signal>): Option<string> {
    if sigs == [] then None
    else if Adds(sigs[|sigs| - 1]) then Some(sigs[|sigs| - 1].path)
    else LatestAdded(sigs[..|sigs| - 1])
  }

  /** The `k`-th signal makes an FTP event. */
  ghost predicate Delivers(sigs: seq<Signal>, k: nat)
    requires k < |sigs|
  {
    RunSignals(sigs[..k + 1]).delivered != RunSignals(sigs[..k]).delivered
  }

  /** The properties of the last transfer interface in an InterfacesAdded signal. */
  function TransferProps(ifaces: seq<Iface>): seq<Prop> {
    if ifaces == [] then []
    else if ifaces[|ifaces| - 1].name == OBEX_TRANSFER then ifaces[|ifaces| - 1].props
    else TransferProps(ifaces[..|ifaces| - 1])
  }

  lemma {:induction false} AddIfacesEffect(s: State, path: string, ifaces: seq<Iface>)
    ensures AddIfaces(s, path, ifaces).delivered == s.delivered
    ensures AddIfaces(s, path, ifaces).transfer ==
      if exists i :: 0 <= i < |ifaces| && ifaces[i].name == OBEX_TRANSFER
      then Fill(BLANK.(path := Some(path)), TransferProps(ifaces)) else s.transfer
  {
    if ifaces != [] {
      var n := |ifaces| - 1;
      AddIfacesEffect(s, path, ifaces[..n]);
      assert (exists i :: 0 <= i < |ifaces| && ifaces[i].name == OBEX_TRANSFER) <==>
        ifaces[n].name == OBEX_TRANSFER || exists i :: 0 <= i < n && ifaces[..n][i].name == OBEX_TRANSFER;
    }
  }

  lemma {:induction false} RemoveIfacesEffect(s: State, names: seq<string>)
    ensures var s' := RemoveIfaces(s, names);
      && s'.delivered == s.delivered
      && s'.transfer == if OBEX_TRANSFER in names then BLANK else s.transfer
  {
    if names != [] {
      var n := |names| - 1;
      RemoveIfacesEffect(s, names[..n]);
      assert names == names[..n] + [names[n]];
    }
  }

  /** One signal: what it does to the tracked path, and when it delivers. */
  lemma SignalEffect(s: State, sig: Signal)
    ensures var s' := Apply(s, sig);
      && (Adds(sig) ==> s'.transfer.path == Some(sig.path) && s'.delivered == s.delivered)
      && (!Adds(sig) ==> s'.transfer.path == None || s'.transfer.path == s.transfer.path)
      && (s'.delivered != s.delivered ==>
            IsObexChange(sig) && s.transfer.path == Some(sig.path) &&
            s'.delivered == s.delivered + [Fill(s.transfer, sig.props)])
      && (sig.Removed? && OBEX_TRANSFER in sig.names ==> s'.transfer.path == None)
  {
    match sig
    case Added(path, ifaces) => AddIfacesEffect(s, path, ifaces);
    case Removed(_, names) => RemoveIfacesEffect(s, names);
    case Changed(_, _, _) =>
    case Started(_, _) =>
  }

  lemma {:induction false} TracksLatest(sigs: seq<Signal>)
    ensures RunSignals(sigs).transfer.path.Some? ==> RunSignals(sigs).transfer.path == LatestAdded(sigs)
  {
    if sigs != [] {
      TracksLatest(sigs[..|sigs| - 1]);
      SignalEffect(RunSignals(sigs[..|sigs| - 1]), sigs[|sigs| - 1]);
    }
  }

  /** Every event is for the most recently added transfer: the signal that makes it is a change
      of that transfer's properties, and the event carries its path. */
  lemma EventsAreForLatest(sigs: seq<Signal>, k: nat)
    requires k < |sigs| && Delivers(sigs, k)
    ensures IsObexChange(sigs[k]) && LatestAdded(sigs[..k]) == Some(sigs[k].path)
    ensures var before := RunSignals(sigs[..k]);
      && RunSignals(sigs[..k + 1]).delivered == before.delivered + [Fill(before.transfer, sigs[k].props)]
      && Fill(before.transfer, sigs[k].props).path == Some(sigs[k].path)
  {
    assert sigs[..k + 1][..k] == sigs[..k];
    TracksLatest(sigs[..k]);
    SignalEffect(RunSignals(sigs[..k]), sigs[k]);
  }

  /** Untracked, and nothing added since: still untracked, and nothing delivered. */
  lemma {:induction false} QuietUntilAdded(sigs: seq<Signal>, from: nat, to: nat)
    requires from <= to <= |sigs| && RunSignals(sigs[..from]).transfer.path == None
    requires forall k :: from <= k < to ==> !Adds(sigs[k])
    ensures RunSignals(sigs[..to]).transfer.path == None
    ensures RunSignals(sigs[..to]).delivered == RunSignals(sigs[..from]).delivered
  {
    if from < to {
      QuietUntilAdded(sigs, from, to - 1);
      assert sigs[..to][..to - 1] == sigs[..to - 1];
      SignalEffect(RunSignals(sigs[..to - 1]), sigs[to - 1]);
    }
  }

  /** The `k`-th signal delivers an event of completion or failure, or removes the transfer. */
  ghost predicate EndsAt(sigs: seq<Signal>, k: nat)
    requires k < |sigs|
  {
    || (Delivers(sigs, k) &&
        var events := RunSignals(sigs[..k + 1]).delivered; events != [] && Terminal(events[|events| - 1]))
    || (sigs[k].Removed? && OBEX_TRANSFER in sigs[k].names)
  }

  /** After an event that reports "complete" or "error", and after a removal, the next event
      comes only once another transfer has been added. */
  lemma NoEventAfterEnd(sigs: seq<Signal>, k: nat, j: nat)
    requires k < j < |sigs| && EndsAt(sigs, k) && Delivers(sigs, j)
    ensures exists a :: k < a < j && Adds(sigs[a])
  {
    EndedIsUntracked(sigs, k);
    EventsAreForLatest(sigs, j);
    if forall a :: k < a < j ==> !Adds(sigs[a]) {
      QuietUntilAdded(sigs, k + 1, j);
    }
  }

  lemma EndedIsUntracked(sigs: seq<Signal>, k: nat)
    requires k < |sigs| && EndsAt(sigs, k)
    ensures RunSignals(sigs[..k + 1]).transfer.path == None
  {
    assert sigs[..k + 1][..k] == sigs[..k];
    SignalEffect(RunSignals(sigs[..k]), sigs[k]);
  }

  /** Signal `a` adds a transfer, and until `k` nothing more is added and nothing ends. */
  ghost predicate LiveSince(sigs: seq<Signal>, a: nat, k: nat) {
    && a < k <= |sigs|
    && Adds(sigs[a])
    && forall j :: a < j < k ==> !Adds(sigs[j]) && !EndsAt(sigs, j)
  }

  ghost predicate Live(sigs: seq<Signal>, k: nat, path: string) {
    exists a: nat :: LiveSince(sigs, a, k) && sigs[a].path == path
  }

  /** What one more signal does to the transfer that is live. */
  lemma LiveStep(sigs: seq<Signal>, k: nat, path: string)
    requires k < |sigs|
    ensures Live(sigs, k + 1, path) <==>
      if Adds(sigs[k]) then sigs[k].path == path else !EndsAt(sigs, k) && Live(sigs, k, path)
  {
    forall a: nat
      ensures LiveSince(sigs, a, k + 1) <==>
        if Adds(sigs[k]) then a == k else !EndsAt(sigs, k) && LiveSince(sigs, a, k)
    {
      LiveSinceStep(sigs, a, k);
    }
    assert LiveSince(sigs, k, k + 1) <==> Adds(sigs[k]);
  }

  lemma LiveSinceStep(sigs: seq<Signal>, a: nat, k: nat)
    requires k < |sigs|
    ensures LiveSince(sigs, a, k + 1) <==>
      if Adds(sigs[k]) then a == k else !EndsAt(sigs, k) && LiveSince(sigs, a, k)
  {
    assert a < k ==> (LiveSince(sigs, a, k + 1) <==> LiveSince(sigs, a, k) && !Adds(sigs[k]) && !EndsAt(sigs, k));
  }

  /** A signal that neither adds nor ends leaves the tracked path as it is. */
  lemma OtherwiseKept(sigs: seq<Signal>, k: nat)
    requires k < |sigs| && !Adds(sigs[k]) && !EndsAt(sigs, k)
    ensures RunSignals(sigs[..k + 1]).transfer.path == RunSignals(sigs[..k]).transfer.path
  {
    var s := RunSignals(sigs[..k]);
    assert sigs[..k + 1][..k] == sigs[..k];
    match sigs[k]
    case Added(path, ifaces) => AddIfacesEffect(s, path, ifaces);
    case Removed(_, names) => RemoveIfacesEffect(s, names);
    case Changed(_, _, _) =>
  }

  /** Over every run, both directions: a path is tracked exactly if its transfer is the latest
      one added and has not ended. */
  lemma {:induction false} TrackedIff(sigs: seq<Signal>, k: nat, path: string)
    requires k <= |sigs|
    ensures RunSignals(sigs[..k]).transfer.path == Some(path) <==> Live(sigs, k, path)
  {
    if k > 0 {
      TrackedIff(sigs, k - 1, path);
      LiveStep(sigs, k - 1, path);
      assert sigs[..k][..k - 1] == sigs[..k - 1];
      SignalEffect(RunSignals(sigs[..k - 1]), sigs[k - 1]);
      if !Adds(sigs[k - 1]) {
        if EndsAt(sigs, k - 1) {
          EndedIsUntracked(sigs, k - 1);
        } else {
          OtherwiseKept(sigs, k - 1);
        }
      }
    }
  }

  /** Exactly when a signal makes an event: it changes the properties of the transfer most
      recently added, and that transfer has not ended since. */
  lemma DeliversIff(sigs: seq<Signal>, k: nat)
    requires k < |sigs|
    ensures Delivers(sigs, k) <==> IsObexChange(sigs[k]) && Live(sigs, k, sigs[k].path)
  {
    assert sigs[..k + 1][..k] == sigs[..k];
    SignalEffect(RunSignals(sigs[..k]), sigs[k]);
    TrackedIff(sigs, k, sigs[k].path);
  }

  /** The signal removes a transfer interface from an object other than `path`. */
  predicate RemovesOther(sig: Signal, path: string) {
    sig.Removed? && OBEX_TRANSFER in sig.names && sig.path != path
  }

  /** What one would expect to end the transfer `path`: its own last status or its own removal. */
  ghost predicate OwnEndAt(sigs: seq<Signal>, k: nat, path: string)
    requires k < |sigs|
  {
    EndsAt(sigs, k) && !RemovesOther(sigs[k], path)
  }

  /** A change of the latest transfer, whose own end has not come, is delivered if and only if
      no other transfer was removed since it was added. */
  lemma ChangeIsDeliveredIff(sigs: seq<Signal>, a: nat, k: nat)
    requires a < k < |sigs| && Adds(sigs[a]) && IsObexChange(sigs[k]) && sigs[a].path == sigs[k].path
    requires forall j :: a < j < k ==> !Adds(sigs[j]) && !OwnEndAt(sigs, j, sigs[k].path)
    ensures Delivers(sigs, k) <==> forall j :: a < j < k ==> !RemovesOther(sigs[j], sigs[k].path)
  {
    DeliversIff(sigs, k);
    OnlyLatestIsLive(sigs, a, k, sigs[k].path);
  }

  /** The failing case: another transfer is removed, and a change of the one still running is
      no longer delivered. */
  lemma OtherRemovalEndsTracking(t1: string, t2: string, props: seq<Prop>, more: seq<Prop>)
    requires t1 != t2
    ensures var sigs := [Added(t1, [Iface(OBEX_TRANSFER, props)]), Removed(t2, [OBEX_TRANSFER]),
                         Changed(t1, OBEX_TRANSFER, more)];
      && RunSignals(sigs[..1]).transfer.path == Some(t1)
      && RunSignals(sigs[..2]).transfer.path == None
      && !Delivers(sigs, 2)
  {
    var sigs := [Added(t1, [Iface(OBEX_TRANSFER, props)]), Removed(t2, [OBEX_TRANSFER]),
                 Changed(t1, OBEX_TRANSFER, more)];
    assert sigs[..1][..0] == [] && sigs[..2][..1] == sigs[..1] && sigs[..3][..2] == sigs[..2];
    assert sigs[0].ifaces[0].name == OBEX_TRANSFER && Adds(sigs[0]);
    SignalEffect(INITIAL, sigs[0]);
    SignalEffect(RunSignals(sigs[..1]), sigs[1]);
    SignalEffect(RunSignals(sigs[..2]), sigs[2]);
  }

  // ---------------------------------------------------------------- what an event says

  /** Everything the bus has said about the latest transfer since it was added. */
  function Told(sigs: seq<Signal>): seq<Prop> {
    if sigs == [] then []
    else
      var before, sig := sigs[..|sigs| - 1], sigs[|sigs| - 1];
      if Adds(sig) then (if sig.Added? then TransferProps(sig.ifaces) else sig.props)
      else if IsObexChange(sig) && LatestAdded(before) == Some(sig.path) then Told(before) + sig.props
      else Told(before)
  }

  predicate SameKey(p: Prop, q: Prop) {
    || (p.FileName? && q.FileName?) || (p.Name? && q.Name?) || (p.Status? && q.Status?)
    || (p.Transferred? && q.Transferred?) || (p.Size? && q.Size?)
  }

  /** Read without the loop: a field holds the last value given for its key. */
  lemma {:induction false} FieldIsLastValue(t: Transfer, props: seq<Prop>, k: nat)
    requires k < |props| && forall j :: k < j < |props| ==> !SameKey(props[j], props[k])
    ensures match props[k]
      case FileName(s) => Fill(t, props).fileName == Some(s)
      case Name(s) => Fill(t, props).name == Some(s)
      case Status(s) => Fill(t, props).status == Some(s)
      case Transferred(n) => Fill(t, props).transferred == n
      case Size(n) => Fill(t, props).size == n
      case Other => true
  {
    if k < |props| - 1 {
      FieldIsLastValue(t, props[..|props| - 1], k);
      assert !SameKey(props[|props| - 1], props[k]);
    }
  }

  lemma {:induction false} FillConcat(t: Transfer, a: seq<Prop>, b: seq<Prop>)
    ensures Fill(t, a + b) == Fill(Fill(t, a), b)
  {
    if b == [] {
      assert a + b == a;
    } else {
      var n := |b| - 1;
      FillConcat(t, a, b[..n]);
      assert (a + b)[..|a + b| - 1] == a + b[..n];
    }
  }

  datatype Key = FileNameKey | NameKey | StatusKey | TransferredKey | SizeKey

  predicate Carries(p: Prop, key: Key) {
    match key
    case FileNameKey => p.FileName?
    case NameKey => p.Name?
    case StatusKey => p.Status?
    case TransferredKey => p.Transferred?
    case SizeKey => p.Size?
  }

  predicate Named(props: seq<Prop>, key: Key) {
    exists i :: 0 <= i < |props| && Carries(props[i], key)
  }

  predicate SameField(t: Transfer, u: Transfer, key: Key) {
    match key
    case FileNameKey => t.fileName == u.fileName
    case NameKey => t.name == u.name
    case StatusKey => t.status == u.status
    case TransferredKey => t.transferred == u.transferred
    case SizeKey => t.size == u.size
  }

  lemma {:induction false} FillField(t: Transfer, u: Transfer, props: seq<Prop>, key: Key)
    ensures SameField(Fill(t, props), Fill(u, props), key) <==> Named(props, key) || SameField(t, u, key)
  {
    if props != [] {
      var n := |props| - 1;
      FillField(t, u, props[..n], key);
      assert Named(props, key) <==> Named(props[..n], key) || Carries(props[n], key) by {
        assert forall i :: 0 <= i < n ==> props[..n][i] == props[i];
      }
    }
  }

  /** A field that no property names keeps its value. */
  lemma {:induction false} FieldIsKept(t: Transfer, props: seq<Prop>, key: Key)
    requires !Named(props, key)
    ensures SameField(Fill(t, props), t, key)
  {
    if props != [] {
      var n := |props| - 1;
      assert !Carries(props[n], key) && forall i :: 0 <= i < n ==> !Carries(props[i], key);
      FieldIsKept(t, props[..n], key);
    }
  }

  /** Nothing shows through: every field that `props` does not name is blank in `t`. */
  ghost predicate Covers(props: seq<Prop>, t: Transfer) {
    forall key :: Named(props, key) || SameField(t, BLANK, key)
  }

  /** Filling over an old record gives what filling a blank one gives exactly if nothing shows
      through. */
  lemma FillOverOld(t: Transfer, props: seq<Prop>)
    ensures Fill(t, props) == Fill(BLANK.(path := t.path), props) <==> Covers(props, t)
  {
    var blank := BLANK.(path := t.path);
    forall key
      ensures SameField(Fill(t, props), Fill(blank, props), key) <==> Named(props, key) || SameField(t, BLANK, key)
    {
      FillField(t, blank, props, key);
    }
    var x, y := Fill(t, props), Fill(blank, props);
    assert x == y <==>
      && SameField(x, y, FileNameKey) && SameField(x, y, NameKey) && SameField(x, y, StatusKey)
      && SameField(x, y, TransferredKey) && SameField(x, y, SizeKey);
  }

  lemma {:induction false} FillPath(t: Transfer, path: Option<string>, props: seq<Prop>)
    ensures Fill(t.(path := path), props) == Fill(t, props).(path := path)
  {
    if props != [] {
      FillPath(t, path, props[..|props| - 1]);
    }
  }

  /** Everything said since the record was last blank: by the signal that added a transfer, by
      the replies to file requests, and by every change that was delivered. */
  ghost function Heard(sigs: seq<Signal>): seq<Prop> {
    if sigs == [] then []
    else
      var before, sig := sigs[..|sigs| - 1], sigs[|sigs| - 1];
      match sig
      case Added(_, ifaces) => if Adds(sig) then TransferProps(ifaces) else Heard(before)
      case Removed(_, names) => if OBEX_TRANSFER in names then [] else Heard(before)
      case Changed(_, _, props) => if Delivers(sigs, |sigs| - 1) then Heard(before) + props else Heard(before)
      case Started(_, props) => Heard(before) + props
  }

  /** The record over every run, whether a transfer is tracked or not. */
  lemma {:induction false} RecordIsWhatWasHeard(sigs: seq<Signal>)
    ensures var t := RunSignals(sigs).transfer; t == Fill(BLANK.(path := t.path), Heard(sigs))
  {
    if sigs != [] {
      var before, sig := sigs[..|sigs| - 1], sigs[|sigs| - 1];
      var s, s' := RunSignals(before), RunSignals(sigs);
      RecordIsWhatWasHeard(before);
      assert sigs[..|sigs| - 1 + 1] == sigs;
      match sig
      case Added(path, ifaces) =>
        AddIfacesEffect(s, path, ifaces);
      case Removed(_, names) =>
        RemoveIfacesEffect(s, names);
      case Changed(path, _, props) =>
        FillConcat(BLANK.(path := s.transfer.path), Heard(before), props);
        FillPath(BLANK, s.transfer.path, Heard(before) + props);
        FillPath(BLANK, None, Heard(before) + props);
      case Started(path, props) =>
        FillPath(BLANK, s.transfer.path, Heard(before));
        FillPath(BLANK, Some(path), Heard(before));
        FillConcat(BLANK.(path := Some(path)), Heard(before), props);
    }
  }

  /** What the record still held when the latest transfer was added: nothing if a signal
      added it, the old record if a file request started it. */
  ghost function Inherited(sigs: seq<Signal>): Transfer {
    if sigs == [] then BLANK
    else
      var before, sig := sigs[..|sigs| - 1], sigs[|sigs| - 1];
      if !Adds(sig) then Inherited(before)
      else if sig.Started? then RunSignals(before).transfer else BLANK
  }

  lemma {:induction false} RecordOverInherited(sigs: seq<Signal>)
    ensures var t := RunSignals(sigs).transfer;
      t.path.Some? ==> t == Fill(Inherited(sigs).(path := LatestAdded(sigs)), Told(sigs))
  {
    TracksLatest(sigs);
    if sigs != [] {
      var before, sig := sigs[..|sigs| - 1], sigs[|sigs| - 1];
      var s := RunSignals(before);
      RecordOverInherited(before);
      TracksLatest(before);
      match sig
      case Added(path, ifaces) =>
        AddIfacesEffect(s, path, ifaces);
      case Removed(_, names) =>
        RemoveIfacesEffect(s, names);
      case Changed(path, _, props) =>
        FillConcat(Inherited(before).(path := LatestAdded(before)), Told(before), props);
      case Started(_, _) =>
    }
  }

  /** The record says what the bus has said about the latest transfer, and no more. */
  ghost predicate RecordIsRight(sigs: seq<Signal>) {
    RunSignals(sigs).transfer == Fill(BLANK.(path := LatestAdded(sigs)), Told(sigs))
  }

  /** Over every run, while a transfer is tracked: its record is what was said about it since it
      was added if and only if that covers what the record still held then. */
  lemma RecordIsWhatWasToldIff(sigs: seq<Signal>)
    requires RunSignals(sigs).transfer.path.Some?
    ensures RecordIsRight(sigs) <==> Covers(Told(sigs), Inherited(sigs))
  {
    RecordOverInherited(sigs);
    var under := Inherited(sigs).(path := LatestAdded(sigs));
    FillOverOld(under, Told(sigs));
    assert forall key :: SameField(under, BLANK, key) <==> SameField(Inherited(sigs), BLANK, key);
  }

  /** The same for every event, the signal that makes it included. */
  lemma EventSaysWhatWasToldIff(sigs: seq<Signal>, k: nat)
    requires k < |sigs| && Delivers(sigs, k)
    ensures RunSignals(sigs[..k + 1]).delivered ==
              RunSignals(sigs[..k]).delivered + [Fill(BLANK.(path := Some(sigs[k].path)), Told(sigs[..k + 1]))]
            <==> Covers(Told(sigs[..k + 1]), Inherited(sigs[..k]))
  {
    EventsAreForLatest(sigs, k);
    RecordOverInherited(sigs[..k]);
    assert sigs[..k + 1][..k] == sigs[..k];
    SignalEffect(RunSignals(sigs[..k]), sigs[k]);
    var under, told := Inherited(sigs[..k]).(path := LatestAdded(sigs[..k])), Told(sigs[..k + 1]);
    FillConcat(under, Told(sigs[..k]), sigs[k].props);
    FillOverOld(under, told);
    assert forall key :: SameField(under, BLANK, key) <==> SameField(Inherited(sigs[..k]), BLANK, key);
    var was, x, y := RunSignals(sigs[..k]).delivered, Fill(under, told), Fill(BLANK.(path := under.path), told);
    assert was + [x] == was + [y] <==> x == y by {
      assert (was + [x])[|was|] == x && (was + [y])[|was|] == y;
    }
  }

  /** From the add at `a` on, what is said only grows and what was inherited stays. */
  lemma {:induction false} SinceAdd(sigs: seq<Signal>, a: nat, k: nat)
    requires a < k <= |sigs| && Adds(sigs[a]) && forall j :: a < j < k ==> !Adds(sigs[j])
    ensures Inherited(sigs[..k]) == Inherited(sigs[..a + 1])
    ensures Told(sigs[..a + 1]) <= Told(sigs[..k])
  {
    if a + 1 < k {
      SinceAdd(sigs, a, k - 1);
      assert sigs[..k][..k - 1] == sigs[..k - 1];
    }
  }

  lemma AtAdd(sigs: seq<Signal>, a: nat)
    requires a < |sigs| && Adds(sigs[a])
    ensures sigs[a].Added? ==> Inherited(sigs[..a + 1]) == BLANK
    ensures sigs[a].Started? ==>
      && Inherited(sigs[..a + 1]) == RunSignals(sigs[..a]).transfer
      && Told(sigs[..a + 1]) == sigs[a].props
      && RunSignals(sigs[..a + 1]).transfer.path == Some(sigs[a].path)
  {
    assert sigs[..a + 1][..a] == sigs[..a];
  }

  /** A file request decides it when it is made: the record is right for as long as this transfer
      is tracked if and only if the reply covers the record it was written over. */
  lemma ReplyDecides(sigs: seq<Signal>, a: nat)
    requires a < |sigs| && sigs[a].Started? && forall j :: a < j < |sigs| ==> !Adds(sigs[j])
    ensures Covers(sigs[a].props, RunSignals(sigs[..a]).transfer) <==>
      forall k :: a < k <= |sigs| && RunSignals(sigs[..k]).transfer.path.Some? ==> RecordIsRight(sigs[..k])
  {
    var under := RunSignals(sigs[..a]).transfer;
    AtAdd(sigs, a);
    RecordIsWhatWasToldIff(sigs[..a + 1]);
    if Covers(sigs[a].props, under) {
      forall k | a < k <= |sigs| && RunSignals(sigs[..k]).transfer.path.Some?
        ensures RecordIsRight(sigs[..k])
      {
        SinceAdd(sigs, a, k);
        RecordIsWhatWasToldIff(sigs[..k]);
        CoversMore(sigs[a].props, Told(sigs[..k]), under);
      }
    }
  }

  lemma CoversMore(props: seq<Prop>, more: seq<Prop>, t: Transfer)
    requires props <= more && Covers(props, t)
    ensures Covers(more, t)
  {
    forall key
      ensures Named(more, key) || SameField(t, BLANK, key)
    {
      if i :| 0 <= i < |props| && Carries(props[i], key) {
        assert Carries(more[i], key);
      }
    }
  }

  /** A transfer that a signal added starts from a blank record, so it is always right. */
  lemma AddedIsAlwaysRight(sigs: seq<Signal>, a: nat, k: nat)
    requires a < k <= |sigs| && sigs[a].Added? && Adds(sigs[a]) && forall j :: a < j < k ==> !Adds(sigs[j])
    requires RunSignals(sigs[..k]).transfer.path.Some?
    ensures RecordIsRight(sigs[..k])
  {
    SinceAdd(sigs, a, k);
    AtAdd(sigs, a);
    RecordIsWhatWasToldIff(sigs[..k]);
  }

  // ---------------------------------------------------------------- the end, read from the signals

  /** The `j`-th signal ends the latest transfer, if it is live, given what the record held when
      the transfer was added: a removal, or a change of it after which the status is terminal. */
  ghost predicate Ends(sigs: seq<Signal>, j: nat, under: Transfer)
    requires j < |sigs|
  {
    || (sigs[j].Removed? && OBEX_TRANSFER in sigs[j].names)
    || (IsObexChange(sigs[j]) && LatestAdded(sigs[..j]) == Some(sigs[j].path) &&
        Terminal(Fill(under, Told(sigs[..j + 1]))))
  }

  ghost predicate NoneEnds(sigs: seq<Signal>, a: nat, k: nat, under: Transfer) {
    forall j :: a < j < k && j < |sigs| ==> !Ends(sigs, j, under)
  }

  lemma NoneEndsStep(sigs: seq<Signal>, a: nat, k: nat, under: Transfer)
    requires a < k < |sigs|
    ensures NoneEnds(sigs, a, k + 1, under) <==> NoneEnds(sigs, a, k, under) && !Ends(sigs, k, under)
  {
  }

  lemma LiveIsTracked(sigs: seq<Signal>, a: nat, j: nat)
    requires LiveSince(sigs, a, j)
    ensures RunSignals(sigs[..j]).transfer.path == Some(sigs[a].path) == LatestAdded(sigs[..j])
  {
    assert Live(sigs, j, sigs[a].path);
    TrackedIff(sigs, j, sigs[a].path);
    TracksLatest(sigs[..j]);
  }

  /** While a transfer is live, a signal ends it exactly if it does so by what was told. */
  lemma EndsWhileLive(sigs: seq<Signal>, a: nat, j: nat)
    requires j < |sigs| && LiveSince(sigs, a, j) && !Adds(sigs[j])
    ensures EndsAt(sigs, j) <==> Ends(sigs, j, Inherited(sigs[..j]))
  {
    LiveIsTracked(sigs, a, j);
    var s, sig := RunSignals(sigs[..j]), sigs[j];
    assert sigs[..j + 1][..j] == sigs[..j];
    if sig.Removed? {
      RemoveIfacesEffect(s, sig.names);
    } else {
      DeliversIff(sigs, j);
      TrackedIff(sigs, j, sig.path);
      if Delivers(sigs, j) {
        EventIsFilled(sigs, j);
      }
    }
  }

  lemma EventIsFilled(sigs: seq<Signal>, j: nat)
    requires j < |sigs| && Delivers(sigs, j)
    ensures var events := RunSignals(sigs[..j + 1]).delivered;
      events != [] && events[|events| - 1].status == Fill(Inherited(sigs[..j]), Told(sigs[..j + 1])).status
  {
    EventsAreForLatest(sigs, j);
    RecordOverInherited(sigs[..j]);
    assert sigs[..j + 1][..j] == sigs[..j];
    SignalEffect(RunSignals(sigs[..j]), sigs[j]);
    var base, path := Inherited(sigs[..j]), LatestAdded(sigs[..j]);
    FillConcat(base.(path := path), Told(sigs[..j]), sigs[j].props);
    FillPath(base, path, Told(sigs[..j + 1]));
  }

  /** From the latest add on: the transfer is live exactly as long as none of the signals ends it
      by what was told, over what the record held when the transfer was added. */
  lemma {:induction false} LiveByWhatWasTold(sigs: seq<Signal>, a: nat, k: nat)
    requires a < k <= |sigs| && Adds(sigs[a]) && forall j :: a < j < k ==> !Adds(sigs[j])
    ensures LiveSince(sigs, a, k) <==> NoneEnds(sigs, a, k, Inherited(sigs[..a + 1]))
  {
    LiveSinceStep(sigs, a, k - 1);
    if a + 1 < k {
      LiveByWhatWasTold(sigs, a, k - 1);
      SinceAdd(sigs, a, k - 1);
      NoneEndsStep(sigs, a, k - 1, Inherited(sigs[..a + 1]));
      if LiveSince(sigs, a, k - 1) {
        EndsWhileLive(sigs, a, k - 1);
      }
    }
  }

  /** The last status among the properties. */
  ghost predicate LastStatus(props: seq<Prop>, status: string) {
    exists m :: 0 <= m < |props| && props[m] == Status(status) && forall n :: m < n < |props| ==> !props[n].Status?
  }

  lemma {:induction false} StatusFilled(t: Transfer, props: seq<Prop>, status: string)
    requires t.status == None
    ensures Fill(t, props).status == Some(status) <==> LastStatus(props, status)
  {
    if props != [] {
      var n := |props| - 1;
      StatusFilled(t, props[..n], status);
      if props[n].Status? {
        assert LastStatus(props, props[n].s);
      } else {
        StatusPrefix(props, status);
      }
    }
  }

  lemma StatusPrefix(props: seq<Prop>, status: string)
    requires props != [] && !props[|props| - 1].Status?
    ensures LastStatus(props, status) <==> LastStatus(props[..|props| - 1], status)
  {
    var before := props[..|props| - 1];
    if m :| 0 <= m < |props| && props[m] == Status(status) && forall n :: m < n < |props| ==> !props[n].Status? {
      assert before[m] == Status(status);
    }
    if m :| 0 <= m < |before| && before[m] == Status(status) && forall n :: m < n < |before| ==> !before[n].Status? {
      assert props[m] == Status(status);
    }
  }

  /** The `j`-th signal ends the latest transfer: it removes a transfer interface, or it changes the
      latest transfer and the last status told of it is then "complete" or "error". */
  ghost predicate EndedBy(sigs: seq<Signal>, j: nat)
    requires j < |sigs|
  {
    || (sigs[j].Removed? && "org.bluez.obex.Transfer1" in sigs[j].names)
    || (sigs[j].Changed? && "/org/bluez" <= sigs[j].path && sigs[j].iface == "org.bluez.obex.Transfer1" &&
        LatestAdded(sigs[..j]) == Some(sigs[j].path) &&
        (LastStatus(Told(sigs[..j + 1]), "complete") || LastStatus(Told(sigs[..j + 1]), "error")))
  }

  lemma EndedByWhatWasTold(sigs: seq<Signal>, j: nat)
    requires j < |sigs|
    ensures EndedBy(sigs, j) <==> Ends(sigs, j, BLANK)
  {
    StatusFilled(BLANK, Told(sigs[..j + 1]), "complete");
    StatusFilled(BLANK, Told(sigs[..j + 1]), "error");
  }

  /** For a transfer that a signal added, delivery is decided by the signals alone: a change of it
      makes an event exactly if none of the signals since has ended it. */
  lemma DeliversBySignals(sigs: seq<Signal>, a: nat, k: nat)
    requires a < k < |sigs| && sigs[a].Added? && Adds(sigs[a]) && forall j :: a < j < k ==> !Adds(sigs[j])
    ensures Delivers(sigs, k) <==>
      && sigs[k].Changed? && "/org/bluez" <= sigs[k].path && sigs[k].iface == "org.bluez.obex.Transfer1"
      && sigs[k].path == sigs[a].path
      && forall j :: a < j < k ==> !EndedBy(sigs, j)
  {
    DeliversIff(sigs, k);
    AtAdd(sigs, a);
    LiveByWhatWasTold(sigs, a, k);
    OnlyLatestIsLive(sigs, a, k, sigs[k].path);
    forall j | a < j < k
      ensures EndedBy(sigs, j) <==> Ends(sigs, j, BLANK)
    {
      EndedByWhatWasTold(sigs, j);
    }
  }

  lemma OnlyLatestIsLive(sigs: seq<Signal>, a: nat, k: nat, path: string)
    requires a < k <= |sigs| && Adds(sigs[a]) && forall j :: a < j < k ==> !Adds(sigs[j])
    ensures Live(sigs, k, path) <==> LiveSince(sigs, a, k) && sigs[a].path == path
  {
    if b: nat :| LiveSince(sigs, b, k) && sigs[b].path == path {
      assert b == a;
    }
  }

  /** The failing case: a transfer completes, a file request starts the next one with a reply
      that says nothing, and the first event about that one reports it complete and ends it. */
  lemma OldStatusIsReported(t1: string, t2: string)
    requires BLUEZ_OBJECT_PATH <= t1 && BLUEZ_OBJECT_PATH <= t2
    ensures var sigs := [Added(t1, [Iface(OBEX_TRANSFER, [])]), Changed(t1, OBEX_TRANSFER, [Status("complete")]),
                         Started(t2, []), Changed(t2, OBEX_TRANSFER, [Transferred(1)])];
      var s := RunSignals(sigs);
      && Told(sigs) == [Transferred(1)]
      && |s.delivered| == 2
      && s.delivered[1] == Transfer(Some(t2), None, None, Some("complete"), 1, 0)
      && s.transfer.path == None
  {
    var one, two := Added(t1, [Iface(OBEX_TRANSFER, [])]), Changed(t1, OBEX_TRANSFER, [Status("complete")]);
    CompletedOnce(t1);
    StartAndChange([one, two], t2, Transferred(1));
    ToldSinceStart([one, two], t2, Transferred(1));
    FourSignals(one, two, Started(t2, []), Changed(t2, OBEX_TRANSFER, [Transferred(1)]));
  }

  lemma FourSignals(one: Signal, two: Signal, three: Signal, four: Signal)
    ensures ([one, two] + [three]) + [four] == [one, two, three, four]
  {
  }

  /** A file request whose reply says nothing, and one change of the transfer it started. */
  lemma StartAndChange(sigs: seq<Signal>, path: string, p: Prop)
    requires BLUEZ_OBJECT_PATH <= path
    ensures var s := RunSignals(sigs);
      var t := FillOne(s.transfer.(path := Some(path)), p);
      RunSignals((sigs + [Started(path, [])]) + [Changed(path, OBEX_TRANSFER, [p])]) ==
      State(if Terminal(t) then t.(path := None) else t, s.session, s.delivered + [t])
  {
    var s, start := RunSignals(sigs), Started(path, []);
    RunSnoc(sigs, start);
    var s' := s.(transfer := s.transfer.(path := Some(path)));
    assert RunSignals(sigs + [start]) == s';
    ChangeSingle(s', path, p);
    RunSnoc(sigs + [start], Changed(path, OBEX_TRANSFER, [p]));
  }

  lemma ToldSinceStart(sigs: seq<Signal>, path: string, p: Prop)
    requires BLUEZ_OBJECT_PATH <= path
    ensures Told((sigs + [Started(path, [])]) + [Changed(path, OBEX_TRANSFER, [p])]) == [p]
  {
    ToldSnoc(sigs, Started(path, []));
    ToldSnoc(sigs + [Started(path, [])], Changed(path, OBEX_TRANSFER, [p]));
  }

  lemma CompletedOnce(t1: string)
    requires BLUEZ_OBJECT_PATH <= t1
    ensures var sigs := [Added(t1, [Iface(OBEX_TRANSFER, [])]), Changed(t1, OBEX_TRANSFER, [Status("complete")])];
      var t := Transfer(Some(t1), None, None, Some("complete"), 0, 0);
      RunSignals(sigs) == State(t.(path := None), "", [t])
  {
    var i, t := Iface(OBEX_TRANSFER, []), BLANK.(path := Some(t1));
    var one, two := Added(t1, [i]), Changed(t1, OBEX_TRANSFER, [Status("complete")]);
    assert [] + [one] == [one] && [one] + [two] == [one, two];
    AddSingle(INITIAL, t1, i);
    RunSnoc([], one);
    ChangeSingle(State(t, "", []), t1, Status("complete"));
    RunSnoc([one], two);
  }

  lemma RunSnoc(sigs: seq<Signal>, sig: Signal)
    ensures RunSignals(sigs + [sig]) == Apply(RunSignals(sigs), sig)
  {
    assert (sigs + [sig])[..|sigs + [sig]| - 1] == sigs;
  }

  lemma ToldSnoc(sigs: seq<Signal>, sig: Signal)
    ensures sig.Started? ==> LatestAdded(sigs + [sig]) == Some(sig.path) && Told(sigs + [sig]) == sig.props
    ensures IsObexChange(sig) && LatestAdded(sigs) == Some(sig.path) ==> Told(sigs + [sig]) == Told(sigs) + sig.props
  {
    assert (sigs + [sig])[..|sigs + [sig]| - 1] == sigs;
  }

  lemma AddSingle(s: State, path: string, i: Iface)
    ensures AddIfaces(s, path, [i]) == AddIface(s, path, i)
  {
    assert [i][..0] == [];
  }

  lemma ChangeSingle(s: State, path: string, p: Prop)
    requires s.transfer.path == Some(path) && BLUEZ_OBJECT_PATH <= path
    ensures var t := FillOne(s.transfer, p);
      Apply(s, Changed(path, OBEX_TRANSFER, [p])) ==
      State(if Terminal(t) then t.(path := None) else t, s.session, s.delivered + [t])
  {
    assert [p][..0] == [] && Fill(s.transfer, [p]) == FillOne(s.transfer, p);
  }

  // ---------------------------------------------------------------- the session

  predicate AddsSession(sig: Signal) {
    sig.Added? && exists i :: 0 <= i < |sig.ifaces| && sig.ifaces[i].name == "org.bluez.obex.Session1"
  }

  predicate RemovesSession(sig: Signal) {
    sig.Removed? && "org.bluez.obex.Session1" in sig.names
  }

  /** Signal `k` adds a session, and no later one adds or removes any. */
  ghost predicate SessionSince(sigs: seq<Signal>, k: nat) {
    && k < |sigs|
    && AddsSession(sigs[k])
    && forall j :: k < j < |sigs| ==> !AddsSession(sigs[j]) && !RemovesSession(sigs[j])
  }

  lemma {:induction false} AddIfacesSession(s: State, path: string, ifaces: seq<Iface>)
    ensures AddIfaces(s, path, ifaces).session ==
      if exists i :: 0 <= i < |ifaces| && ifaces[i].name == "org.bluez.obex.Session1" then path else s.session
  {
    if ifaces != [] {
      var n := |ifaces| - 1;
      AddIfacesSession(s, path, ifaces[..n]);
      assert (exists i :: 0 <= i < |ifaces| && ifaces[i].name == "org.bluez.obex.Session1") <==>
        ifaces[n].name == "org.bluez.obex.Session1" ||
        exists i :: 0 <= i < n && ifaces[..n][i].name == "org.bluez.obex.Session1";
    }
  }

  lemma {:induction false} RemoveIfacesSession(s: State, names: seq<string>)
    ensures RemoveIfaces(s, names).session == if "org.bluez.obex.Session1" in names then "" else s.session
  {
    if names != [] {
      var n := |names| - 1;
      RemoveIfacesSession(s, names[..n]);
      assert names == names[..n] + [names[n]];
    }
  }

  lemma SessionStep(s: State, sig: Signal)
    ensures Apply(s, sig).session ==
      if AddsSession(sig) then sig.path else if RemovesSession(sig) then "" else s.session
  {
    match sig
    case Added(path, ifaces) => AddIfacesSession(s, path, ifaces);
    case Removed(_, names) => RemoveIfacesSession(s, names);
    case Changed(_, _, _) =>
    case Started(_, _) =>
  }

  lemma SinceStep(sigs: seq<Signal>, k: nat)
    requires sigs != []
    ensures var n := |sigs| - 1;
      SessionSince(sigs, k) <==>
      if AddsSession(sigs[n]) then k == n else !RemovesSession(sigs[n]) && SessionSince(sigs[..n], k)
  {
    var n := |sigs| - 1;
    assert forall j :: 0 <= j < n ==> sigs[..n][j] == sigs[j];
  }

  /** Over every run: the session path is the path of the last signal that added a session, if no
      session was removed since, and empty otherwise. */
  lemma {:induction false} SessionIsLatest(sigs: seq<Signal>)
    ensures forall k: nat :: SessionSince(sigs, k) ==> RunSignals(sigs).session == sigs[k].path
    ensures (forall k: nat :: !SessionSince(sigs, k)) ==> RunSignals(sigs).session == ""
  {
    if sigs != [] {
      var n := |sigs| - 1;
      SessionIsLatest(sigs[..n]);
      SessionStep(RunSignals(sigs[..n]), sigs[n]);
      forall k: nat
        ensures SessionSince(sigs, k) <==>
          if AddsSession(sigs[n]) then k == n else !RemovesSession(sigs[n]) && SessionSince(sigs[..n], k)
      {
        SinceStep(sigs, k);
      }
      assert AddsSession(sigs[n]) ==> SessionSince(sigs, n);
    }
  }

  // ---------------------------------------------------------------- the handlers

  /** The module's globals `transfer_property` and `session_path`, and the events handed out. */
  class Tracker {
    var transfer: Transfer
    var session: string
    var delivered: seq<Transfer>

    ghost function Abs(): State
      reads this
    {
      State(transfer, session, delivered)
    }

    constructor ()
      ensures Abs() == INITIAL
    {
      transfer, session, delivered := BLANK, "", [];
    }

    /** `_fill_transfer_property`. */
    method FillTransfer(props: seq<Prop>)
      modifies this`transfer
      ensures transfer == Fill(old(transfer), props)
    {
      for i := 0 to |props|
        invariant transfer == Fill(old(transfer), props[..i])
      {
        assert props[..i + 1][..i] == props[..i];
        match props[i]
        case FileName(s) => transfer := transfer.(fileName := Some(s));
        case Name(s) => transfer := transfer.(name := Some(s));
        case Status(s) => transfer := transfer.(status := Some(s));
        case Transferred(n) => transfer := transfer.(transferred := n);
        case Size(n) => transfer := transfer.(size := n);
        case Other =>
      }
      assert props[..|props|] == props;
    }

    /** The OBEX branches of `_on_interface_added`. */
    method OnInterfacesAdded(path: string, ifaces: seq<Iface>)
      modifies this
      ensures Abs() == Apply(old(Abs()), Added(path, ifaces))
    {
      for i := 0 to |ifaces|
        invariant Abs() == AddIfaces(old(Abs()), path, ifaces[..i])
      {
        assert ifaces[..i + 1][..i] == ifaces[..i];
        if ifaces[i].name == OBEX_SESSION {
          session := path;
        } else if ifaces[i].name == OBEX_TRANSFER {
          transfer := Transfer(Some(path), None, None, None, 0, 0);
          FillTransfer(ifaces[i].props);
        }
      }
      assert ifaces[..|ifaces|] == ifaces;
    }

    /** `_on_interface_removed`. */
    method OnInterfacesRemoved(path: string, names: seq<string>)
      modifies this
      ensures Abs() == Apply(old(Abs()), Removed(path, names))
    {
      for i := 0 to |names|
        invariant Abs() == RemoveIfaces(old(Abs()), names[..i])
      {
        assert names[..i + 1][..i] == names[..i];
        if names[i] == OBEX_SESSION {
          session := "";
        } else if names[i] == OBEX_TRANSFER {
          transfer := Transfer(None, None, None, None, 0, 0);
        }
      }
      assert names[..|names|] == names;
    }

    /** The OBEX branch of `_on_properties_changed`. */
    method OnPropertiesChanged(path: string, iface: string, props: seq<Prop>)
      modifies this
      ensures Abs() == Apply(old(Abs()), Changed(path, iface, props))
    {
      if BLUEZ_OBJECT_PATH <= path && iface == OBEX_TRANSFER {
        if transfer.path == None || transfer.path != Some(path) {
          return;
        }
        FillTransfer(props);
        delivered := delivered + [transfer];
        if transfer.status == Some("complete") || transfer.status == Some("error") {
          transfer := transfer.(path := None);
        }
      }
    }

    /** `bt_ftp_get_file` and `bt_ftp_put_file`: refused without a session, while a cancellation is
        under way and while a transfer is tracked; otherwise the reply is recorded over what the
        record still holds. */
    method StartTransfer(path: string, props: seq<Prop>, canceling: bool) returns (ret: Error)
      modifies this
      ensures ret == if old(session) == "" then E_NOT_INITIALIZED
                     else if canceling || old(transfer).path.Some? then E_BUSY else S_OK
      ensures Abs() == if ret == S_OK then Apply(old(Abs()), Started(path, props)) else old(Abs())
    {
      if |session| == 0 {
        return E_NOT_INITIALIZED;
      }
      if canceling {
        return E_BUSY;
      }
      if transfer.path != None {
        return E_BUSY;
      }
      transfer := transfer.(path := Some(path));
      FillTransfer(props);
      return S_OK;
    }
  }
}
