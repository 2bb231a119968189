/**
  The opt-in qualified-status gate (clause 4.12 of ETSI TS 119 615): status histories, matching an
  issuer to trust services, authenticating the list, and the fold over the documents of a response.
  Certificate parsing, chain validation and base64 decoding are parameters.
*/
module Qualified {
  import opened Prelude
  import CborValue
  import Disclosure
  import IssuerItemScan
  import MdocVerify
  import Rfc3339

  datatype QualifiedStatus = IsQualified | NotQualified | Indeterminate

  datatype StatusRecord = StatusRecord(status: Text, start: int)

  datatype ServiceEntry = ServiceEntry(
    serviceType: Text, history: seq<StatusRecord>, sdiCert: Option<Bytes>, sdiSubject: Option<Bytes>, sdiSki: Option<Bytes>)

  datatype LeafIdentity = LeafIdentity(issuer: Bytes, ski: Option<Bytes>, aki: Option<Bytes>)

  datatype TrustList = TrustList(services: seq<ServiceEntry>, signer: Option<Bytes>, nextUpdate: int)

  /** The list as its JSON spells it. */
  datatype RawStatus = RawStatus(status: Text, startingTime: Text)
  datatype RawService = RawService(serviceType: Text, cert: Option<Text>, ski: Option<Text>, history: seq<RawStatus>)
  datatype RawList = RawList(nextUpdate: Text, signer: Option<Text>, services: seq<RawService>)

  datatype ListError = BadBase64 | BadTime

  datatype AuthError = NoSchemeAnchor | Unsigned | SignerNotTrusted | Stale

  /** The routines the gate calls and the model does not look into. */
  datatype Library = Library(
    trim: Text -> Text,
    decodeCert: Text -> Option<Bytes>,
    decodeSki: Text -> Option<Bytes>,
    subjectAndSki: Bytes -> (Option<Bytes>, Option<Bytes>),
    leafIdentity: Bytes -> Option<LeafIdentity>,
    chains: (Bytes, seq<Bytes>, int) -> bool)

  const EAA_Q: Text := Lit("http://uri.etsi.org/TrstSvc/Svctype/EAA/Q")
  const GRANTED: Text := Lit("http://uri.etsi.org/TrstSvc/TrustedList/Svcstatus/granted")
  const QUALIFIED_TYPE: Text := Lit("urn:etsi:esi:eaa:eu:qualified")

  // ---------------------------------------------------------------------------------------------
  // Status histories
  // ---------------------------------------------------------------------------------------------

  /** A record placed after every record that starts no later. */
  function Insert(h: seq<StatusRecord>, r: StatusRecord): seq<StatusRecord> {
    if h == [] || h[|h| - 1].start <= r.start then h + [r]
    else Insert(h[..|h| - 1], r) + [h[|h| - 1]]
  }

  /** `sort_by_key` on the starting time: stable. */
  function SortedByStart(h: seq<StatusRecord>): seq<StatusRecord> {
    if h == [] then [] else Insert(SortedByStart(h[..|h| - 1]), h[|h| - 1])
  }

  predicate Ascending(h: seq<StatusRecord>) {
    forall i, j :: 0 <= i < j < |h| ==> h[i].start <= h[j].start
  }

  /** The records that start at `t`, in order. */
  function StartingAt(h: seq<StatusRecord>, t: int): seq<StatusRecord> {
    if h == [] then [] else StartingAt(h[..|h| - 1], t) + if h[|h| - 1].start == t then [h[|h| - 1]] else []
  }

  /** `rfind`: the last record of the sorted history that starts at or before `t`. */
  function LastBy(h: seq<StatusRecord>, t: int): Option<StatusRecord> {
    if h == [] then None
    else if h[|h| - 1].start <= t then Some(h[|h| - 1])
    else LastBy(h[..|h| - 1], t)
  }

  function EffectiveStatusAt(s: ServiceEntry, t: int): Option<Text> {
    match LastBy(s.history, t)
    case Some(r) => Some(r.status)
    case None => None
  }

  lemma {:induction false} InsertPermutes(h: seq<StatusRecord>, r: StatusRecord)
    ensures multiset(Insert(h, r)) == multiset(h) + multiset{r}
    decreases |h|
  {
    if h != [] && h[|h| - 1].start > r.start {
      InsertPermutes(h[..|h| - 1], r);
      assert h == h[..|h| - 1] + [h[|h| - 1]];
    }
  }

  lemma InsertMembers(h: seq<StatusRecord>, r: StatusRecord, x: StatusRecord)
    ensures x in Insert(h, r) <==> x == r || x in h
  {
    InsertPermutes(h, r);
    assert x in Insert(h, r) <==> x in multiset(Insert(h, r));
    assert x in h <==> x in multiset(h);
  }

  lemma {:induction false} InsertAscends(h: seq<StatusRecord>, r: StatusRecord)
    requires Ascending(h)
    ensures Ascending(Insert(h, r))
    decreases |h|
  {
    if h != [] && h[|h| - 1].start > r.start {
      var init, last := h[..|h| - 1], h[|h| - 1];
      InsertAscends(init, r);
      var front := Insert(init, r);
      forall i | 0 <= i < |front| ensures front[i].start <= last.start {
        InsertMembers(init, r, front[i]);
        if front[i] in init {
          var k :| 0 <= k < |init| && init[k] == front[i];
          assert h[k].start <= h[|h| - 1].start;
        }
      }
    }
  }

  lemma {:induction false} InsertIsStable(h: seq<StatusRecord>, r: StatusRecord, t: int)
    ensures StartingAt(Insert(h, r), t) == StartingAt(h, t) + if r.start == t then [r] else []
    decreases |h|
  {
    var out := Insert(h, r);
    if h == [] || h[|h| - 1].start <= r.start {
      assert out[..|h|] == h;
    } else {
      var init, last := h[..|h| - 1], h[|h| - 1];
      InsertIsStable(init, r, t);
      assert out[..|out| - 1] == Insert(init, r);
    }
  }

  /** The sort is ascending, loses nothing, and keeps the order of records with one starting time. */
  lemma {:induction false} SortIsStable(h: seq<StatusRecord>, t: int)
    ensures Ascending(SortedByStart(h)) && multiset(SortedByStart(h)) == multiset(h)
    ensures StartingAt(SortedByStart(h), t) == StartingAt(h, t)
    decreases |h|
  {
    hide Insert, Ascending;
    if h == [] {
      NothingAscends();
    } else {
      var init, last := h[..|h| - 1], h[|h| - 1];
      SortIsStable(init, t);
      InsertPermutes(SortedByStart(init), last);
      InsertAscends(SortedByStart(init), last);
      InsertIsStable(SortedByStart(init), last, t);
      assert h == init + [last];
    }
  }

  lemma NothingAscends()
    ensures Ascending([])
  {
  }

  lemma {:induction false} LastByInsert(h: seq<StatusRecord>, r: StatusRecord, t: int)
    requires Ascending(h)
    ensures LastBy(Insert(h, r), t)
         == if r.start <= t && (LastBy(h, t).None? || LastBy(h, t).value.start <= r.start) then Some(r) else LastBy(h, t)
    decreases |h|
  {
    if h == [] || h[|h| - 1].start <= r.start {
      assert (h + [r])[..|h|] == h;
      if LastBy(h, t).Some? { LastByIsIn(h, t); }
    } else {
      var init, last := h[..|h| - 1], h[|h| - 1];
      LastByInsert(init, r, t);
      assert (Insert(init, r) + [last])[..|Insert(init, r)|] == Insert(init, r);
    }
  }

  lemma {:induction false} LastByIsIn(h: seq<StatusRecord>, t: int)
    requires Ascending(h) && LastBy(h, t).Some?
    ensures LastBy(h, t).value in h && LastBy(h, t).value.start <= t && h != [] && LastBy(h, t).value.start <= h[|h| - 1].start
    decreases |h|
  {
    if h[|h| - 1].start > t {
      LastByIsIn(h[..|h| - 1], t);
    }
  }

  /** Record `i` of the listed order is in force at `t`: none that has started is later, or as late and listed after it. */
  predicate InForceAt(listed: seq<StatusRecord>, i: nat, t: int) {
    && i < |listed| && listed[i].start <= t
    && forall j :: 0 <= j < |listed| && listed[j].start <= t ==>
         listed[j].start < listed[i].start || (listed[j].start == listed[i].start && j <= i)
  }

  lemma LastIsListed(listed: seq<StatusRecord>, t: int)
    requires LastBy(SortedByStart(listed), t).Some?
    ensures var r := LastBy(SortedByStart(listed), t).value; r in listed && r.start <= t
  {
    hide SortedByStart, LastBy;
    SortIsStable(listed, t);
    LastByIsIn(SortedByStart(listed), t);
    var r := LastBy(SortedByStart(listed), t).value;
    assert r in multiset(SortedByStart(listed));
    assert r in multiset(listed);
  }

  lemma SortStep(h: seq<StatusRecord>)
    requires h != []
    ensures SortedByStart(h) == Insert(SortedByStart(h[..|h| - 1]), h[|h| - 1])
  {
  }

  /** A record in force before the last listed one stays in force among the earlier ones. */
  lemma InForceEarlier(listed: seq<StatusRecord>, i: nat, t: int)
    requires InForceAt(listed, i, t) && i < |listed| - 1
    ensures InForceAt(listed[..|listed| - 1], i, t)
    ensures listed[|listed| - 1].start <= t ==> listed[|listed| - 1].start < listed[i].start
  {
  }

  lemma {:induction false} InForceIsLast(listed: seq<StatusRecord>, i: nat, t: int)
    requires InForceAt(listed, i, t)
    ensures LastBy(SortedByStart(listed), t) == Some(listed[i])
    decreases |listed|
  {
    hide Insert, LastBy, Ascending, SortedByStart;
    var n := |listed| - 1;
    var init, last := listed[..n], listed[n];
    SortIsStable(init, t);
    SortStep(listed);
    LastByInsert(SortedByStart(init), last, t);
    if i == n {
      var before := LastBy(SortedByStart(init), t);
      if before.Some? {
        LastIsListed(init, t);
        var j :| 0 <= j < n && init[j] == before.value;
        assert listed[j].start <= last.start;
      }
    } else {
      hide InForceAt;
      InForceEarlier(listed, i, t);
      InForceIsLast(init, i, t);
    }
  }

  /** Some record is in force once one has started. */
  lemma {:induction false} Latest(listed: seq<StatusRecord>, t: int, j: nat) returns (i: nat)
    requires j < |listed| && listed[j].start <= t
    ensures InForceAt(listed, i, t)
    decreases |listed|
  {
    var n := |listed| - 1;
    var init := listed[..n];
    if k: nat :| k < n && listed[k].start <= t {
      i := Latest(init, t, k);
      if listed[n].start <= t && init[i].start <= listed[n].start { i := n; }
      forall m | 0 <= m < |listed| && listed[m].start <= t
        ensures listed[m].start < listed[i].start || (listed[m].start == listed[i].start && m <= i)
      {
        if m < n { assert init[m] == listed[m]; }
      }
    } else {
      i := n;
    }
  }

  /** The effective status is the one in force, whatever the order in which the list gives the records. */
  lemma EffectiveExact(listed: seq<StatusRecord>, t: int, r: StatusRecord)
    ensures LastBy(SortedByStart(listed), t) == Some(r) <==> exists i: nat :: InForceAt(listed, i, t) && listed[i] == r
  {
    hide SortedByStart, LastBy;
    if LastBy(SortedByStart(listed), t) == Some(r) {
      LastIsListed(listed, t);
      var j :| 0 <= j < |listed| && listed[j] == r;
      var i := Latest(listed, t, j);
      InForceIsLast(listed, i, t);
    }
    forall i: nat | InForceAt(listed, i, t) ensures LastBy(SortedByStart(listed), t) == Some(listed[i]) {
      InForceIsLast(listed, i, t);
    }
  }

  // ---------------------------------------------------------------------------------------------
  // Parsing
  // ---------------------------------------------------------------------------------------------

  function Decoded(decode: Text -> Option<Bytes>, t: Option<Text>): Result<Option<Bytes>, ListError> {
    match t
    case None => Ok(None)
    case Some(b64) => match decode(b64) case Some(bytes) => Ok(Some(bytes)) case None => Err(BadBase64)
  }

  /** The records in the order the list gives them. */
  function ListedHistory(l: Library, raw: seq<RawStatus>): Option<seq<StatusRecord>> {
    if raw == [] then Some([])
    else
      match ListedHistory(l, raw[..|raw| - 1])
      case None => None
      case Some(init) =>
        match Rfc3339.ParseRfc3339Utc(l.trim(raw[|raw| - 1].startingTime))
        case None => None
        case Some(start) => Some(init + [StatusRecord(raw[|raw| - 1].status, start)])
  }

  /** A bare key identifier takes precedence over the certificate's. */
  function ServiceOf(l: Library, raw: RawService): Result<ServiceEntry, ListError> {
    match Decoded(l.decodeCert, raw.cert)
    case Err(e) => Err(e)
    case Ok(cert) =>
      match Decoded(l.decodeSki, raw.ski)
      case Err(e) => Err(e)
      case Ok(bare) =>
        var (subject, certSki) := if cert.Some? then l.subjectAndSki(cert.value) else (None, None);
        match ListedHistory(l, raw.history)
        case None => Err(BadTime)
        case Some(listed) =>
          Ok(ServiceEntry(raw.serviceType, SortedByStart(listed), cert, subject, if bare.Some? then bare else certSki))
  }

  function ServicesOf(l: Library, raw: seq<RawService>): Result<seq<ServiceEntry>, ListError> {
    if raw == [] then Ok([])
    else
      match ServicesOf(l, raw[..|raw| - 1])
      case Err(e) => Err(e)
      case Ok(init) =>
        match ServiceOf(l, raw[|raw| - 1])
        case Err(e) => Err(e)
        case Ok(s) => Ok(init + [s])
  }

  function ListOf(l: Library, raw: RawList): Result<TrustList, ListError> {
    match Rfc3339.ParseRfc3339Utc(l.trim(raw.nextUpdate))
    case None => Err(BadTime)
    case Some(next) =>
      match Decoded(l.decodeCert, raw.signer)
      case Err(e) => Err(e)
      case Ok(signer) =>
        match ServicesOf(l, raw.services)
        case Err(e) => Err(e)
        case Ok(services) => Ok(TrustList(services, signer, next))
  }

  lemma NothingParsed(l: Library)
    ensures ServicesOf(l, []) == Ok([]) && ListedHistory(l, []) == Some([])
  {
  }

  lemma ServicesStep(l: Library, raw: seq<RawService>, i: nat)
    requires i < |raw|
    ensures ServicesOf(l, raw[..i + 1])
         == match (ServicesOf(l, raw[..i]), ServiceOf(l, raw[i]))
            case (Err(e), _) => Err(e)
            case (Ok(_), Err(e)) => Err(e)
            case (Ok(init), Ok(s)) => Ok(init + [s])
  {
    hide ServiceOf;
    assert raw[..i + 1][..i] == raw[..i];
  }

  lemma HistoryStep(l: Library, raw: seq<RawStatus>, i: nat)
    requires i < |raw|
    ensures ListedHistory(l, raw[..i + 1])
         == match (ListedHistory(l, raw[..i]), Rfc3339.ParseRfc3339Utc(l.trim(raw[i].startingTime)))
            case (Some(init), Some(start)) => Some(init + [StatusRecord(raw[i].status, start)])
            case _ => None
  {
    hide Rfc3339.ParseRfc3339Utc;
    assert raw[..i + 1][..i] == raw[..i];
  }

  /** `parse`, from the decoded JSON on. */
  method Parse(l: Library, raw: RawList) returns (r: Result<TrustList, ListError>)
    ensures r == ListOf(l, raw)
  {
    hide ServicesOf, ServiceOf, Decoded, Rfc3339.ParseRfc3339Utc;
    var next := Rfc3339.ParseRfc3339Utc(l.trim(raw.nextUpdate));
    if next.None? { return Err(BadTime); }
    var signer := Decoded(l.decodeCert, raw.signer);
    if signer.Err? { return Err(signer.error); }
    var services: seq<ServiceEntry> := [];
    NothingParsed(l);
    assert raw.services[..0] == [];
    for i := 0 to |raw.services|
      invariant ServicesOf(l, raw.services[..i]) == Ok(services)
    {
      var entry := ParseService(l, raw.services[i]);
      ServicesStep(l, raw.services, i);
      if entry.Err? {
        ServicesFail(l, raw.services, i + 1);
        return Err(entry.error);
      }
      services := services + [entry.value];
    }
    assert raw.services[..|raw.services|] == raw.services;
    r := Ok(TrustList(services, signer.value, next.value));
  }

  method ParseService(l: Library, svc: RawService) returns (r: Result<ServiceEntry, ListError>)
    ensures r == ServiceOf(l, svc)
  {
    hide ListedHistory, SortedByStart, Decoded, Rfc3339.ParseRfc3339Utc;
    var cert := Decoded(l.decodeCert, svc.cert);
    if cert.Err? { return Err(cert.error); }
    var bareSki := Decoded(l.decodeSki, svc.ski);
    if bareSki.Err? { return Err(bareSki.error); }
    var (subject, certSki) := if cert.value.Some? then l.subjectAndSki(cert.value.value) else (None, None);
    var ski := if bareSki.value.Some? then bareSki.value else certSki;
    var history: seq<StatusRecord> := [];
    NothingParsed(l);
    assert svc.history[..0] == [];
    for i := 0 to |svc.history|
      invariant ListedHistory(l, svc.history[..i]) == Some(history)
    {
      var start := Rfc3339.ParseRfc3339Utc(l.trim(svc.history[i].startingTime));
      HistoryStep(l, svc.history, i);
      if start.None? {
        HistoryFails(l, svc.history, i + 1);
        return Err(BadTime);
      }
      history := history + [StatusRecord(svc.history[i].status, start.value)];
    }
    assert svc.history[..|svc.history|] == svc.history;
    history := SortedByStart(history);
    r := Ok(ServiceEntry(svc.serviceType, history, cert.value, subject, ski));
  }

  lemma {:induction false} HistoryFails(l: Library, raw: seq<RawStatus>, i: nat)
    requires i <= |raw| && ListedHistory(l, raw[..i]) == None
    ensures ListedHistory(l, raw) == None
    decreases |raw| - i
  {
    if i < |raw| {
      assert raw[..i + 1][..i] == raw[..i];
      HistoryFails(l, raw, i + 1);
    } else {
      assert raw[..i] == raw;
    }
  }

  lemma {:induction false} ServicesFail(l: Library, raw: seq<RawService>, i: nat)
    requires i <= |raw| && ServicesOf(l, raw[..i]).Err?
    ensures ServicesOf(l, raw) == ServicesOf(l, raw[..i])
    decreases |raw| - i
  {
    hide ServiceOf;
    if i < |raw| {
      assert raw[..i + 1][..i] == raw[..i];
      ServicesFail(l, raw, i + 1);
    } else {
      assert raw[..i] == raw;
    }
  }

  lemma {:induction false} ServiceAt(l: Library, raw: seq<RawService>, i: nat)
    requires ServicesOf(l, raw).Ok? && i < |raw|
    ensures |ServicesOf(l, raw).value| == |raw| && ServiceOf(l, raw[i]) == Ok(ServicesOf(l, raw).value[i])
    decreases |raw|
  {
    hide ServiceOf;
    if i < |raw| - 1 {
      ServiceAt(l, raw[..|raw| - 1], i);
    } else {
      ServicesLength(l, raw[..|raw| - 1]);
    }
  }

  lemma {:induction false} ServicesLength(l: Library, raw: seq<RawService>)
    requires ServicesOf(l, raw).Ok?
    ensures |ServicesOf(l, raw).value| == |raw|
    decreases |raw|
  {
    hide ServiceOf;
    if raw != [] { ServicesLength(l, raw[..|raw| - 1]); }
  }

  /** The instant a listed time denotes, if it is one. */
  function TimeOf(l: Library, t: Text): Option<int> {
    Rfc3339.ParseRfc3339Utc(l.trim(t))
  }

  predicate Decodes(decode: Text -> Option<Bytes>, t: Option<Text>) {
    t.Some? ==> decode(t.value).Some?
  }

  predicate TimesRead(l: Library, svc: RawService) {
    forall i :: 0 <= i < |svc.history| ==> TimeOf(l, svc.history[i].startingTime).Some?
  }

  predicate BodiesRead(l: Library, svc: RawService) {
    Decodes(l.decodeCert, svc.cert) && Decodes(l.decodeSki, svc.ski)
  }

  /** The history that is read has the listed records, in their order, each with the instant its time denotes. */
  lemma {:induction false} HistoryExact(l: Library, raw: seq<RawStatus>, h: seq<StatusRecord>)
    ensures ListedHistory(l, raw) == Some(h)
       <==> && |h| == |raw|
            && forall i :: 0 <= i < |raw| ==> h[i].status == raw[i].status && TimeOf(l, raw[i].startingTime) == Some(h[i].start)
    decreases |raw|
  {
    hide Rfc3339.ParseRfc3339Utc;
    if raw != [] && |h| == |raw| {
      var n := |raw| - 1;
      HistoryExact(l, raw[..n], h[..n]);
      assert h == h[..n] + [h[n]];
      if ListedHistory(l, raw) == Some(h) {
        assert ListedHistory(l, raw[..n]).value == h[..n];
        forall i | 0 <= i < n ensures h[i].status == raw[i].status && TimeOf(l, raw[i].startingTime) == Some(h[i].start) {
          assert h[i] == h[..n][i] && raw[i] == raw[..n][i];
        }
      }
    } else if ListedHistory(l, raw).Some? {
      HistoryLength(l, raw);
    }
  }

  lemma {:induction false} HistoryLength(l: Library, raw: seq<RawStatus>)
    requires ListedHistory(l, raw).Some?
    ensures |ListedHistory(l, raw).value| == |raw|
    decreases |raw|
  {
    hide Rfc3339.ParseRfc3339Utc;
    if raw != [] { HistoryLength(l, raw[..|raw| - 1]); }
  }

  lemma {:induction false} HistoryRead(l: Library, raw: seq<RawStatus>)
    ensures ListedHistory(l, raw).Some? <==> forall i :: 0 <= i < |raw| ==> TimeOf(l, raw[i].startingTime).Some?
    decreases |raw|
  {
    hide Rfc3339.ParseRfc3339Utc;
    if raw != [] {
      var n := |raw| - 1;
      HistoryRead(l, raw[..n]);
      assert raw == raw[..n] + [raw[n]];
    }
  }

  lemma ServiceRead(l: Library, svc: RawService)
    ensures match ServiceOf(l, svc)
            case Ok(_) => BodiesRead(l, svc) && TimesRead(l, svc)
            case Err(BadBase64) => !BodiesRead(l, svc)
            case Err(BadTime) => BodiesRead(l, svc) && !TimesRead(l, svc)
  {
    hide ListedHistory, Rfc3339.ParseRfc3339Utc, SortedByStart;
    HistoryRead(l, svc.history);
  }

  /** Every entry before the `n`-th is read. */
  predicate ReadUpTo(l: Library, raw: seq<RawService>, n: nat) {
    forall i :: 0 <= i < n && i < |raw| ==> BodiesRead(l, raw[i]) && TimesRead(l, raw[i])
  }

  lemma {:induction false} ServicesRead(l: Library, raw: seq<RawService>)
    ensures match ServicesOf(l, raw)
            case Ok(_) => ReadUpTo(l, raw, |raw|)
            case Err(e) =>
              exists n: nat :: n < |raw| && ReadUpTo(l, raw, n) && (if e == BadBase64 then !BodiesRead(l, raw[n])
                                                                     else BodiesRead(l, raw[n]) && !TimesRead(l, raw[n]))
    decreases |raw|
  {
    hide ServiceOf, BodiesRead, TimesRead;
    if raw != [] {
      var n := |raw| - 1;
      var init := raw[..n];
      ServicesRead(l, init);
      ServiceRead(l, raw[n]);
      if ServicesOf(l, init).Err? {
        var m: nat :| m < |init| && ReadUpTo(l, init, m)
                      && (if ServicesOf(l, init).error == BadBase64 then !BodiesRead(l, init[m])
                          else BodiesRead(l, init[m]) && !TimesRead(l, init[m]));
        assert raw[m] == init[m];
        assert ReadUpTo(l, raw, m) by {
          forall i | 0 <= i < m ensures BodiesRead(l, raw[i]) && TimesRead(l, raw[i]) { assert raw[i] == init[i]; }
        }
      } else {
        assert ReadUpTo(l, raw, n) by {
          forall i | 0 <= i < n ensures BodiesRead(l, raw[i]) && TimesRead(l, raw[i]) { assert raw[i] == init[i]; }
        }
      }
    }
  }

  /** A list parses exactly when its update time, every base64 body and every starting time can be read. */
  lemma ParsesExactly(l: Library, raw: RawList)
    ensures ListOf(l, raw).Ok?
       <==> TimeOf(l, raw.nextUpdate).Some? && Decodes(l.decodeCert, raw.signer) && ReadUpTo(l, raw.services, |raw.services|)
  {
    hide ServicesOf, Rfc3339.ParseRfc3339Utc, BodiesRead, TimesRead;
    ServicesRead(l, raw.services);
  }

  // ---------------------------------------------------------------------------------------------
  // Matching, authenticating, reading
  // ---------------------------------------------------------------------------------------------

  /** The exact certificate, the same key, or an issuing CA tied by name and by key. */
  predicate MatchesLeaf(s: ServiceEntry, cert: Bytes, leaf: LeafIdentity) {
    || s.sdiCert == Some(cert)
    || (s.sdiSki.Some? && s.sdiSki == leaf.ski)
    || (s.sdiSubject == Some(leaf.issuer) && leaf.aki.Some? && leaf.aki == s.sdiSki)
  }

  /** A certificate that does not parse can still be listed byte for byte. */
  predicate Covers(l: Library, s: ServiceEntry, cert: Bytes) {
    match l.leafIdentity(cert)
    case Some(leaf) => MatchesLeaf(s, cert, leaf)
    case None => s.sdiCert == Some(cert)
  }

  /** No match rests on a name alone: the certificate is listed byte for byte, or a key identifier is shared. */
  lemma MatchSharesAKey(l: Library, s: ServiceEntry, cert: Bytes)
    requires Covers(l, s, cert) && s.sdiCert != Some(cert)
    ensures && l.leafIdentity(cert).Some? && s.sdiSki.Some?
            && (l.leafIdentity(cert).value.ski == s.sdiSki || l.leafIdentity(cert).value.aki == s.sdiSki)
  {
  }

  function ServicesFor(l: Library, list: TrustList, cert: Bytes): seq<ServiceEntry> {
    Filtered(l, list.services, cert)
  }

  function Filtered(l: Library, services: seq<ServiceEntry>, cert: Bytes): seq<ServiceEntry> {
    if services == [] then []
    else (if Covers(l, services[0], cert) then [services[0]] else []) + Filtered(l, services[1..], cert)
  }

  lemma {:induction false} InFiltered(l: Library, services: seq<ServiceEntry>, cert: Bytes, s: ServiceEntry)
    ensures s in Filtered(l, services, cert) <==> s in services && Covers(l, s, cert)
  {
    hide Covers;
    if services != [] {
      InFiltered(l, services[1..], cert, s);
    }
  }

  function Authenticate(l: Library, list: TrustList, anchors: seq<Bytes>, now: int): Result<(), AuthError> {
    if anchors == [] then Err(NoSchemeAnchor)
    else
      match list.signer
      case None => Err(Unsigned)
      case Some(signer) =>
        if !l.chains(signer, anchors, now) then Err(SignerNotTrusted)
        else if list.nextUpdate <= 0 || now >= list.nextUpdate then Err(Stale)
        else Ok(())
  }

  predicate GrantedQualified(s: ServiceEntry, t: int) {
    s.serviceType == EAA_Q && EffectiveStatusAt(s, t) == Some(GRANTED)
  }

  function ReadStatus(l: Library, cert: Bytes, relevantTime: int, list: TrustList, category: Option<Text>): QualifiedStatus {
    if category != Some(QUALIFIED_TYPE) then Indeterminate
    else
      var services := ServicesFor(l, list, cert);
      if services == [] then Indeterminate
      else if exists i :: 0 <= i < |services| && GrantedQualified(services[i], relevantTime) then IsQualified
      else NotQualified
  }

  // ---------------------------------------------------------------------------------------------
  // The fold and the gate
  // ---------------------------------------------------------------------------------------------

  function Severity(s: QualifiedStatus): nat {
    match s
    case IsQualified => 0
    case NotQualified => 1
    case Indeterminate => 2
  }

  /** `max_by_key`: the last of the most severe, and `Indeterminate` for none. */
  function FoldQualified(statuses: seq<QualifiedStatus>): QualifiedStatus {
    if statuses == [] then Indeterminate
    else if |statuses| == 1 then statuses[0]
    else
      var init, last := FoldQualified(statuses[..|statuses| - 1]), statuses[|statuses| - 1];
      if Severity(last) >= Severity(init) then last else init
  }

  lemma {:induction false} FoldExact(statuses: seq<QualifiedStatus>)
    ensures FoldQualified(statuses) == IsQualified <==> statuses != [] && forall s :: s in statuses ==> s == IsQualified
    ensures FoldQualified(statuses) == Indeterminate <==> statuses == [] || Indeterminate in statuses
    decreases |statuses|
  {
    if |statuses| == 1 {
      var only := statuses[0];
      assert only in statuses && forall s :: s in statuses ==> s == only;
    } else if |statuses| > 1 {
      var init, last := statuses[..|statuses| - 1], statuses[|statuses| - 1];
      FoldExact(init);
      assert statuses == init + [last];
      assert forall s :: s in statuses <==> s in init || s == last;
      assert init[0] in init && last in statuses;
    }
  }

  function StatusesOf(l: Library, list: TrustList, issuers: seq<MdocVerify.ClaimedIssuer>): (ss: seq<QualifiedStatus>)
    ensures |ss| == |issuers|
    ensures forall i :: 0 <= i < |issuers| ==> ss[i] == ReadStatus(l, issuers[i].dsCert, issuers[i].issuedAt, list, issuers[i].category)
  {
    seq(|issuers|, i requires 0 <= i < |issuers| =>
      ReadStatus(l, issuers[i].dsCert, issuers[i].issuedAt, list, issuers[i].category))
  }

  /** The mdoc arm of `qualified_status_for`: the list is authenticated once, at `now`. */
  function QualifiedStatusFor(l: Library, list: Option<TrustList>, anchors: seq<Bytes>, now: int,
                              issuers: seq<MdocVerify.ClaimedIssuer>): QualifiedStatus {
    match list
    case None => Indeterminate
    case Some(tl) =>
      if Authenticate(l, tl, anchors, now).Err? then Indeterminate else FoldQualified(StatusesOf(l, tl, issuers))
  }

  /** The end of `verify`: a status only for a valid result, and only when a gate is on. */
  function Gate(l: Library, policyGate: bool, contextGate: bool, list: Option<TrustList>, anchors: seq<Bytes>, now: int,
                verdict: Result<MdocVerify.Verdict, Disclosure.Reason>): Option<QualifiedStatus> {
    if (policyGate || contextGate) && verdict.Ok? then
      Some(QualifiedStatusFor(l, list, anchors, now, verdict.value.issuers))
    else None
  }

  // ---------------------------------------------------------------------------------------------
  // No false "qualified"
  // ---------------------------------------------------------------------------------------------

  /** The key identifier of a listed service: the bare one if it gives one, else its certificate's. */
  predicate HasSki(l: Library, raw: RawService, ski: Bytes) {
    if raw.ski.Some? then l.decodeSki(raw.ski.value) == Some(ski)
    else raw.cert.Some? && l.decodeCert(raw.cert.value).Some? && l.subjectAndSki(l.decodeCert(raw.cert.value).value).1 == Some(ski)
  }

  predicate HasSubject(l: Library, raw: RawService, name: Bytes) {
    raw.cert.Some? && l.decodeCert(raw.cert.value).Some? && l.subjectAndSki(l.decodeCert(raw.cert.value).value).0 == Some(name)
  }

  /** The certificate itself is listed, or its key, or an issuing CA with the name and the key that the certificate names. */
  predicate ListedCovers(l: Library, raw: RawService, cert: Bytes) {
    || (raw.cert.Some? && l.decodeCert(raw.cert.value) == Some(cert))
    || (l.leafIdentity(cert).Some?
        && var leaf := l.leafIdentity(cert).value;
           || (leaf.ski.Some? && HasSki(l, raw, leaf.ski.value))
           || (leaf.aki.Some? && HasSki(l, raw, leaf.aki.value) && HasSubject(l, raw, leaf.issuer)))
  }

  lemma CoversExact(l: Library, raw: RawService, cert: Bytes)
    requires ServiceOf(l, raw).Ok?
    ensures Covers(l, ServiceOf(l, raw).value, cert) <==> ListedCovers(l, raw, cert)
  {
    hide ListedHistory, SortedByStart;
  }

  /** The listed service was granted at `t`, read off the records in the order the list gives them. */
  ghost predicate ListedGranted(l: Library, raw: RawService, t: int) {
    && raw.serviceType == Lit("http://uri.etsi.org/TrstSvc/Svctype/EAA/Q")
    && ListedHistory(l, raw.history).Some?
    && exists i: nat :: InForceAt(ListedHistory(l, raw.history).value, i, t)
                        && ListedHistory(l, raw.history).value[i].status
                           == Lit("http://uri.etsi.org/TrstSvc/TrustedList/Svcstatus/granted")
  }

  /** Some listed service covers the certificate. */
  predicate Known(l: Library, raw: RawList, cert: Bytes) {
    exists k :: 0 <= k < |raw.services| && ListedCovers(l, raw.services[k], cert)
  }

  /** Some listed service covers the certificate and was granted at `t`. */
  ghost predicate ListedFor(l: Library, raw: RawList, cert: Bytes, t: int) {
    exists k :: 0 <= k < |raw.services| && ListedCovers(l, raw.services[k], cert) && ListedGranted(l, raw.services[k], t)
  }

  predicate DeclaresQualified(category: Option<Text>) {
    category == Some(Lit("urn:etsi:esi:eaa:eu:qualified"))
  }

  lemma GrantedExact(l: Library, raw: RawService, t: int)
    requires ServiceOf(l, raw).Ok?
    ensures GrantedQualified(ServiceOf(l, raw).value, t) <==> ListedGranted(l, raw, t)
  {
    var listed := ListedHistory(l, raw.history).value;
    hide ListedHistory, SortedByStart, LastBy;
    var last := LastBy(SortedByStart(listed), t);
    if last.Some? { EffectiveExact(listed, t, last.value); }
    forall i: nat | InForceAt(listed, i, t) ensures last == Some(listed[i]) {
      EffectiveExact(listed, t, listed[i]);
    }
  }

  lemma {:induction false} AnyFiltered(l: Library, services: seq<ServiceEntry>, cert: Bytes)
    ensures Filtered(l, services, cert) != [] <==> exists k :: 0 <= k < |services| && Covers(l, services[k], cert)
  {
    hide Covers;
    if services != [] {
      AnyFiltered(l, services[1..], cert);
      if k :| 0 <= k < |services| && Covers(l, services[k], cert) {
        if k > 0 { assert Covers(l, services[1..][k - 1], cert); }
      }
    }
  }

  lemma SomeFiltered(l: Library, services: seq<ServiceEntry>, cert: Bytes, t: int)
    ensures (exists i :: 0 <= i < |Filtered(l, services, cert)| && GrantedQualified(Filtered(l, services, cert)[i], t))
       <==> exists k :: 0 <= k < |services| && Covers(l, services[k], cert) && GrantedQualified(services[k], t)
  {
    hide Covers, GrantedQualified, Filtered;
    var fs := Filtered(l, services, cert);
    if i :| 0 <= i < |fs| && GrantedQualified(fs[i], t) {
      InFiltered(l, services, cert, fs[i]);
      var k :| 0 <= k < |services| && services[k] == fs[i];
    }
    if k :| 0 <= k < |services| && Covers(l, services[k], cert) && GrantedQualified(services[k], t) {
      InFiltered(l, services, cert, services[k]);
      var i :| 0 <= i < |fs| && fs[i] == services[k];
    }
  }

  /**
    What the list says of one issuer.  Undecided: it does not declare the qualified type, or no listed
    service covers it.  Decided, it is qualified exactly when a service that covers it was granted then.
  */
  lemma ReadExact(l: Library, raw: RawList, cert: Bytes, t: int, category: Option<Text>)
    requires ListOf(l, raw).Ok?
    ensures var status := ReadStatus(l, cert, t, ListOf(l, raw).value, category);
            && (status == Indeterminate <==> !DeclaresQualified(category) || !Known(l, raw, cert))
            && (status == IsQualified <==> DeclaresQualified(category) && ListedFor(l, raw, cert, t))
            && (status == NotQualified <==> DeclaresQualified(category) && Known(l, raw, cert) && !ListedFor(l, raw, cert, t))
  {
    hide ServicesOf, ServiceOf, GrantedQualified, ListedGranted, Covers, ListedCovers, Filtered, ListOf;
    ServicesListed(l, raw);
    var services := ListOf(l, raw).value.services;
    AnyFiltered(l, services, cert);
    SomeFiltered(l, services, cert, t);
    forall k | 0 <= k < |raw.services|
      ensures Covers(l, services[k], cert) <==> ListedCovers(l, raw.services[k], cert)
      ensures GrantedQualified(services[k], t) <==> ListedGranted(l, raw.services[k], t)
    {
      ServiceAt(l, raw.services, k);
      CoversExact(l, raw.services[k], cert);
      GrantedExact(l, raw.services[k], t);
    }
  }

  /** The service lists the certificate byte for byte, or by a key identifier of the leaf or of its issuer. */
  predicate SharesKey(l: Library, s: ServiceEntry, cert: Bytes) {
    || s.sdiCert == Some(cert)
    || (s.sdiSki.Some? && l.leafIdentity(cert).Some?
        && (l.leafIdentity(cert).value.ski == s.sdiSki || l.leafIdentity(cert).value.aki == s.sdiSki))
  }

  /** No certificate is read as qualified on a name alone. */
  lemma NeverByNameAlone(l: Library, list: TrustList, cert: Bytes, t: int, category: Option<Text>)
    requires ReadStatus(l, cert, t, list, category) == IsQualified
    ensures exists s :: s in list.services && GrantedQualified(s, t) && SharesKey(l, s, cert)
  {
    hide GrantedQualified, Covers, Filtered;
    var services := ServicesFor(l, list, cert);
    var i :| 0 <= i < |services| && GrantedQualified(services[i], t);
    var s := services[i];
    InFiltered(l, list.services, cert, s);
    if s.sdiCert != Some(cert) {
      MatchSharesAKey(l, s, cert);
    }
  }

  lemma ServicesListed(l: Library, raw: RawList)
    requires ListOf(l, raw).Ok?
    ensures ServicesOf(l, raw.services) == Ok(ListOf(l, raw).value.services)
    ensures |ListOf(l, raw).value.services| == |raw.services|
  {
    hide ServicesOf;
    ServicesLength(l, raw.services);
  }

  /** The list is signed under a configured anchor and fresh, as its raw fields say. */
  predicate Authentic(l: Library, list: Option<RawList>, anchors: seq<Bytes>, now: int) {
    && list.Some? && anchors != [] && list.value.signer.Some?
    && (var signer := l.decodeCert(list.value.signer.value); signer.Some? && l.chains(signer.value, anchors, now))
    && (var next := TimeOf(l, list.value.nextUpdate); next.Some? && 0 < next.value && now < next.value)
  }

  /** The list the gate is handed: none, or one that parsed. */
  predicate Handed(l: Library, list: Option<RawList>, parsed: Option<TrustList>) {
    match list
    case None => parsed == None
    case Some(raw) => parsed.Some? && ListOf(l, raw) == Ok(parsed.value)
  }

  lemma AuthenticExact(l: Library, raw: RawList, anchors: seq<Bytes>, now: int)
    requires ListOf(l, raw).Ok?
    ensures Authenticate(l, ListOf(l, raw).value, anchors, now).Ok? <==> Authentic(l, Some(raw), anchors, now)
  {
    hide ServicesOf, Rfc3339.ParseRfc3339Utc;
  }

  /** The issuer declares the qualified type and is on the list. */
  predicate Decided(l: Library, list: Option<RawList>, issuer: MdocVerify.ClaimedIssuer) {
    list.Some? && DeclaresQualified(issuer.category) && Known(l, list.value, issuer.dsCert)
  }

  /** A service that covers the issuer was granted when its document was issued. */
  ghost predicate Granted(l: Library, list: Option<RawList>, issuer: MdocVerify.ClaimedIssuer) {
    list.Some? && ListedFor(l, list.value, issuer.dsCert, issuer.issuedAt)
  }

  lemma StatusExact(l: Library, raw: RawList, issuer: MdocVerify.ClaimedIssuer)
    requires ListOf(l, raw).Ok?
    ensures var status := ReadStatus(l, issuer.dsCert, issuer.issuedAt, ListOf(l, raw).value, issuer.category);
            && (status == Indeterminate <==> !Decided(l, Some(raw), issuer))
            && (status == IsQualified <==> Decided(l, Some(raw), issuer) && Granted(l, Some(raw), issuer))
  {
    hide ListOf, ReadStatus, ListedGranted, ListedCovers, DeclaresQualified;
    ReadExact(l, raw, issuer.dsCert, issuer.issuedAt, issuer.category);
  }

  /**
    The gate's three answers.  Each issuer is read at the time its own document was issued, by the
    records as listed; the list is authenticated at `now`.
  */
  lemma GateExact(l: Library, policyGate: bool, contextGate: bool, list: Option<RawList>, parsed: Option<TrustList>,
                  anchors: seq<Bytes>, now: int, verdict: MdocVerify.Verdict)
    requires Handed(l, list, parsed) && (policyGate || contextGate)
    ensures var issuers, gate := verdict.issuers, Gate(l, policyGate, contextGate, parsed, anchors, now, Ok(verdict));
            && (gate == Some(IsQualified)
                <==> && Authentic(l, list, anchors, now) && issuers != []
                     && forall i :: 0 <= i < |issuers| ==> Decided(l, list, issuers[i]) && Granted(l, list, issuers[i]))
            && (gate == Some(NotQualified)
                <==> && Authentic(l, list, anchors, now)
                     && (forall i :: 0 <= i < |issuers| ==> Decided(l, list, issuers[i]))
                     && exists i :: 0 <= i < |issuers| && !Granted(l, list, issuers[i]))
            && (gate == Some(Indeterminate)
                <==> || !Authentic(l, list, anchors, now) || issuers == []
                     || exists i :: 0 <= i < |issuers| && !Decided(l, list, issuers[i]))
  {
    hide ReadStatus, ListOf, Authentic, Authenticate, Decided, Granted;
    match list {
      case None => NoList(l, anchors, now);
      case Some(raw) =>
        AuthenticExact(l, raw, anchors, now);
        var statuses := StatusesOf(l, parsed.value, verdict.issuers);
        FoldExact(statuses);
        forall i | 0 <= i < |verdict.issuers|
          ensures statuses[i] == Indeterminate <==> !Decided(l, list, verdict.issuers[i])
          ensures statuses[i] == IsQualified <==> Decided(l, list, verdict.issuers[i]) && Granted(l, list, verdict.issuers[i])
        {
          StatusExact(l, raw, verdict.issuers[i]);
        }
        assert forall i :: 0 <= i < |statuses| ==> statuses[i] in statuses;
    }
  }

  lemma NoList(l: Library, anchors: seq<Bytes>, now: int)
    ensures !Authentic(l, None, anchors, now)
  {
  }

  /** No status without a gate, and none for a credential that is not valid. */
  lemma GateOff(l: Library, policyGate: bool, contextGate: bool, parsed: Option<TrustList>, anchors: seq<Bytes>, now: int,
                verdict: Result<MdocVerify.Verdict, Disclosure.Reason>)
    ensures Gate(l, policyGate, contextGate, parsed, anchors, now, verdict) == None <==> (!policyGate && !contextGate) || verdict.Err?
  {
    hide QualifiedStatusFor;
  }

  /** The claim that declares a category (clause 6.2.2 of ETSI TS 119 472-1). */
  function CategoryClaim(category: Text): Disclosure.Triple {
    Disclosure.Triple(Lit("org.etsi.01947201.010101"), Lit("category"), CborValue.TextValue(category))
  }

  /** A qualified verdict covers every document of the response: each by its own issuer, category and issuance time. */
  lemma EveryDocumentQualifies(l: Library, policyGate: bool, contextGate: bool, raw: RawList, anchors: seq<Bytes>, now: int,
                               k: MdocVerify.Checks, documents: seq<CborValue.Value>, captured: seq<IssuerItemScan.RawDocumentItems>,
                               params: MdocVerify.Params, verdict: MdocVerify.Verdict)
    requires ListOf(l, raw).Ok?
    requires MdocVerify.AllVerified(k, documents, captured, params, |documents|)
    requires MdocVerify.Listed(k, documents, captured, params, |documents|, verdict.issuers, verdict.docTypes)
    requires Gate(l, policyGate, contextGate, Some(ListOf(l, raw).value), anchors, now, Ok(verdict)) == Some(IsQualified)
    ensures forall i :: 0 <= i < |documents| ==>
              var one := MdocVerify.DocumentAt(k, documents, captured, params, i).value;
              && CategoryClaim(Lit("urn:etsi:esi:eaa:eu:qualified")) in Disclosure.Triples(one.disclosed)
              && ListedFor(l, raw, one.dsCert, one.issuedAt)
  {
    hide Gate, ListOf, ListedFor, Authentic, Known, MdocVerify.DocumentAt, MdocVerify.CategoryOf, Disclosure.Triples, Lit;
    GateOff(l, policyGate, contextGate, Some(ListOf(l, raw).value), anchors, now, Ok(verdict));
    GateExact(l, policyGate, contextGate, Some(raw), Some(ListOf(l, raw).value), anchors, now, verdict);
    forall i | 0 <= i < |documents|
      ensures var one := MdocVerify.DocumentAt(k, documents, captured, params, i).value;
              && CategoryClaim(Lit("urn:etsi:esi:eaa:eu:qualified")) in Disclosure.Triples(one.disclosed)
              && ListedFor(l, raw, one.dsCert, one.issuedAt)
    {
      MdocVerify.CategoryExact(MdocVerify.DocumentAt(k, documents, captured, params, i).value.disclosed,
                               Lit("urn:etsi:esi:eaa:eu:qualified"));
      assert Decided(l, Some(raw), verdict.issuers[i]) && Granted(l, Some(raw), verdict.issuers[i]);
    }
  }
}
