/** Class Curl of namespace PhpCurl: its request-header store and the
    lifecycle of the libcurl handles it owns. The handles are opaque
    objects: what libcurl does with them is not modelled, only which handle
    was created, configured, bound and released, the last two kept in a
    ghost log of events. */
module PhpCurl {
  import opened Php

  // ---------------------------------------------------------------------------
  // Handles

  datatype Protocol = Http | Https

  /** The options Curl::initialize() sets on a fresh transport handle. The
      cookie jar and the forbid-reuse flag are only set when sharing. */
  datatype Settings = Settings(
    cookieJar: Option<string>,
    forbidReuse: Option<bool>,
    protocols: set<Protocol>,
    redirectProtocols: set<Protocol>,
    // The constant passed as CURLOPT_DEFAULT_PROTOCOL, a protocol bit
    // (CURLPROTO_HTTPS); libcurl reads this option as a scheme name.
    defaultProtocol: Protocol,
    failOnError: bool,
    tcpFastOpen: bool,
    connectTimeout: nat,
    maxDefaultTlsVersion: bool,
    verifyStatus: bool,
    verifyPeer: bool,
    falseStart: bool,
    shuffleDnsAddresses: bool,
    followLocation: bool,
    maxRedirects: nat,
    autoReferer: bool,
    includeHead: bool,
    returnTransfer: bool,
    timeout: nat)

  /** The cookie jar's file name, in the directory of the class's own file. */
  const CookieJarFile: string := "cookie_jar.txt"

  /** The hardened defaults, plus the sharing options when `share` holds. */
  function Hardened(share: bool): Settings {
    Settings(
      cookieJar := if share then Some(CookieJarFile) else None,
      forbidReuse := if share then Some(false) else None,
      protocols := {Http, Https},
      redirectProtocols := {Https},
      defaultProtocol := Https,
      failOnError := true,
      tcpFastOpen := true,
      connectTimeout := 10,
      maxDefaultTlsVersion := true,
      verifyStatus := false,
      verifyPeer := true,
      falseStart := true,
      shuffleDnsAddresses := true,
      followLocation := true,
      maxRedirects := 20,
      autoReferer := true,
      includeHead := true,
      returnTransfer := true,
      timeout := 25)
  }

  /** A libcurl share handle (CurlShareHandle) sharing cookies, DNS and TLS
      sessions. */
  class ShareHandle {
    constructor () {
    }
  }

  /** A libcurl easy handle (CurlHandle) with the options it was set up
      with and the share handle bound to it, if any. */
  class TransportHandle {
    const settings: Settings
    const share: ShareHandle?

    constructor (settings: Settings, share: ShareHandle?)
      ensures this.settings == settings && this.share == share
    {
      this.settings := settings;
      this.share := share;
    }
  }

  /** What happened to the handles: curl_init(), curl_close(),
      curl_share_init() and curl_share_close(). */
  datatype Event =
    | Opened(handle: TransportHandle)
    | Closed(handle: TransportHandle)
    | ShareOpened(share: ShareHandle)
    | ShareClosed(share: ShareHandle)

  /** How many share handles the log records as created. */
  ghost function SharesOpened(log: seq<Event>): nat {
    if log == [] then 0
    else SharesOpened(log[..|log| - 1]) + if log[|log| - 1].ShareOpened? then 1 else 0
  }

  /** The transport handles created and not passed to curl_close() since. */
  ghost function Live(log: seq<Event>): set<TransportHandle> {
    if log == [] then {}
    else
      var earlier := Live(log[..|log| - 1]);
      match log[|log| - 1]
      case Opened(h) => earlier + {h}
      case Closed(h) => earlier - {h}
      case _ => earlier
  }

  lemma {:induction false} NoShareOpened(log: seq<Event>)
    requires forall i :: 0 <= i < |log| ==> !log[i].ShareOpened?
    ensures SharesOpened(log) == 0
  {
    if log != [] {
      NoShareOpened(log[..|log| - 1]);
    }
  }

  /** Appending one event: a created share handle counts once more. */
  lemma ShareStep(log: seq<Event>, e: Event)
    ensures SharesOpened(log + [e]) == SharesOpened(log) + if e.ShareOpened? then 1 else 0
  {
    assert (log + [e])[..|log|] == log;
  }

  /** Appending one event: a created handle becomes live, a closed one
      stops being live. */
  lemma LiveStep(log: seq<Event>, e: Event)
    ensures e.Opened? ==> Live(log + [e]) == Live(log) + {e.handle}
    ensures e.Closed? ==> Live(log + [e]) == Live(log) - {e.handle}
    ensures e.ShareOpened? || e.ShareClosed? ==> Live(log + [e]) == Live(log)
  {
    assert (log + [e])[..|log|] == log;
  }

  /** Every share handle the log records as created is `share`. */
  ghost predicate SharesCreatedAre(log: seq<Event>, share: ShareHandle?) {
    forall i :: 0 <= i < |log| && log[i].ShareOpened? ==> log[i].share == share
  }

  lemma SharesCreatedStep(log: seq<Event>, e: Event, share: ShareHandle?)
    requires SharesCreatedAre(log, share)
    requires e.ShareOpened? ==> e.share == share
    ensures SharesCreatedAre(log + [e], share)
  {
    assert forall i :: 0 <= i < |log| ==> (log + [e])[i] == log[i];
  }

  /** Curl::initialize()'s log creates at most one share handle, and only
      the held one. */
  lemma InitializeShares(log: seq<Event>, created: seq<Event>, released: seq<Event>, h: TransportHandle,
                         before: ShareHandle?, after: ShareHandle?)
    requires SharesOpened(log) <= 1 && SharesCreatedAre(log, before)
    requires (created == [] && after == before) || (before == null && after != null && created == [ShareOpened(after)])
    requires released == [] || (|released| == 1 && released[0].Closed?)
    ensures SharesOpened(log + created + released + [Opened(h)]) <= 1
    ensures SharesCreatedAre(log + created + released + [Opened(h)], after)
  {
    var log1 := log + created;
    if created != [] {
      assert log1 == log + [created[0]];
      NoShareOpened(log);
      ShareStep(log, created[0]);
      SharesCreatedStep(log, created[0], after);
    } else {
      assert log1 == log;
    }
    var log2 := log1 + released;
    if released != [] {
      assert log2 == log1 + [released[0]];
      ShareStep(log1, released[0]);
      SharesCreatedStep(log1, released[0], after);
    } else {
      assert log2 == log1;
    }
    ShareStep(log2, Opened(h));
    SharesCreatedStep(log2, Opened(h), after);
  }

  /** Closing the held handle leaves nothing live. */
  lemma ReleaseHeld(log: seq<Event>, released: seq<Event>, held: TransportHandle?)
    requires forall x :: x in Live(log) ==> x == held
    requires released == if held == null then [] else [Closed(held)]
    ensures Live(log + released) == {}
  {
    if held != null {
      LiveStep(log, Closed(held));
    } else {
      assert log + released == log;
    }
  }

  /** Curl::initialize()'s log leaves exactly the new handle live. */
  lemma InitializeLive(log: seq<Event>, created: seq<Event>, released: seq<Event>, h: TransportHandle,
                       held: TransportHandle?)
    requires forall x :: x in Live(log) ==> x == held
    requires created == [] || (|created| == 1 && created[0].ShareOpened?)
    requires released == if held == null then [] else [Closed(held)]
    ensures Live(log + created + released + [Opened(h)]) == {h}
  {
    var log1 := log + created;
    if created != [] {
      LiveStep(log, created[0]);
      assert log1 == log + [created[0]];
    } else {
      assert log1 == log;
    }
    ReleaseHeld(log1, released, held);
    LiveStep(log1 + released, Opened(h));
  }

  // ---------------------------------------------------------------------------
  // The header store

  /** $this->headers[$key]: null when the key is absent. */
  function Lookup(m: map<string, string>, key: string): Option<string> {
    if key in m then Some(m[key]) else None
  }

  /** The store's invariant: no key holds a value empty() calls empty. */
  ghost predicate NoEmptyValues(m: map<string, string>) {
    forall k :: k in m ==> !Empty(Some(m[k]))
  }

  /** The effect of Curl::setHeader() on the stored map: a value is stored,
      an empty one removes the key if it holds a value, and no other key
      changes. */
  function Put(m: map<string, string>, key: string, value: Option<string>): (r: map<string, string>)
    ensures forall k :: k != key ==> Lookup(r, k) == Lookup(m, k)
    ensures !Empty(value) ==> Lookup(r, key) == value
    ensures Empty(value) && !Empty(Lookup(m, key)) ==> key !in r
    ensures Empty(value) && Empty(Lookup(m, key)) ==> r == m
    ensures NoEmptyValues(m) ==> NoEmptyValues(r)
  {
    if !Empty(value) then m[key := value.value]
    else if !Empty(Lookup(m, key)) then m - {key}
    else m
  }

  // ---------------------------------------------------------------------------
  // The client

  class Curl {
    var handle: TransportHandle?
    var shareHandle: ShareHandle?
    var headers: map<string, string>
    ghost var log: seq<Event>

    /** The object invariant: the store holds no empty value, at most one
        share handle was ever created and it is the one held, and every
        transport handle created and not released is the one held. */
    ghost predicate Valid()
      reads this
    {
      && NoEmptyValues(headers)
      && SharesOpened(log) <= 1
      && SharesCreatedAre(log, shareHandle)
      && (forall h :: h in Live(log) ==> h == handle)
    }

    /** Curl::__construct(): adopts the handles given, if any. */
    constructor (handle: TransportHandle? := null, shareHandle: ShareHandle? := null)
      ensures Valid()
      ensures this.handle == handle && this.shareHandle == shareHandle
      ensures headers == map[] && log == []
    {
      this.handle := handle;
      this.shareHandle := shareHandle;
      headers := map[];
      log := [];
    }

    /** Curl::initialize(): creates the share handle when sharing is asked
        for and none is held, closes the transport handle held, if any,
        and creates and configures a new one. The share handle is never
        closed here, and a held one is reused. */
    method Initialize(share: bool := true)
      requires Valid()
      modifies this
      ensures Valid()
      ensures fresh(handle)
      ensures headers == old(headers)
      ensures old(shareHandle) != null ==> shareHandle == old(shareHandle)
      ensures old(shareHandle) == null && share ==> shareHandle != null && fresh(shareHandle)
      ensures old(shareHandle) == null && !share ==> shareHandle == null
      ensures handle.share == (if share then shareHandle else null)
      ensures handle.settings == Hardened(share)
      ensures var created := if share && old(shareHandle) == null then [ShareOpened(shareHandle)] else [];
              var released := if old(handle) != null then [Closed(old(handle))] else [];
              log == old(log) + created + released + [Opened(handle)]
    {
      ghost var log0, created := log, [];
      if share && shareHandle == null {
        var s := new ShareHandle();
        shareHandle := s;
        created := [ShareOpened(s)];
      }
      ghost var released := if handle != null then [Closed(handle)] else [];
      var h := new TransportHandle(Hardened(share), if share then shareHandle else null);
      InitializeShares(log0, created, released, h, old(shareHandle), shareHandle);
      InitializeLive(log0, created, released, h, handle);
      handle := h;
      log := log0 + created + released + [Opened(h)];
    }

    /** Curl::setHeader(): stores a non-empty value; an empty one (null, ""
        or "0") removes the key. Afterwards getHeader() gives back the value
        stored, or the fallback once the key was removed. */
    method SetHeader(key: string, value: Option<string> := None)
      requires Valid()
      modifies this`headers
      ensures Valid()
      ensures headers == Put(old(headers), key, value)
      ensures forall fallback :: GetHeader(key, fallback) == if Empty(value) then fallback else value
    {
      if !Empty(value) {
        headers := headers[key := value.value];
      } else if !Empty(Lookup(headers, key)) {
        headers := headers - {key};
      }
    }

    /** Curl::getHeader(): the stored value, or the fallback when there is
        none or it is empty. Under the invariant the fallback is returned
        exactly when the key is absent. */
    function GetHeader(key: string, fallback: Option<string> := None): (r: Option<string>)
      reads this
      ensures r == fallback || (key in headers && r == Some(headers[key]) && !Empty(r))
      ensures Valid() ==> r == if key in headers then Some(headers[key]) else fallback
    {
      if Empty(Lookup(headers, key)) then fallback else Lookup(headers, key)
    }

    /** Curl::headers(): the store with empty values filtered out, which
        under the invariant is the store itself. */
    function Headers(): (r: map<string, string>)
      reads this
      ensures NoEmptyValues(r)
      ensures Valid() ==> r == headers
    {
      ArrayFilter(headers)
    }

    /** Curl::clearHeaders() */
    method ClearHeaders()
      requires Valid()
      modifies this`headers
      ensures Valid()
      ensures headers == map[]
    {
      headers := map[];
    }

    /** Curl::close(): closes the transport handle and, when one is held,
        the share handle, leaving both fields as they are. With no transport
        handle ever set, PHP throws on reading the property and nothing is
        closed: `ok` is false. */
    method Close() returns (ok: bool)
      requires Valid()
      modifies this`log
      ensures Valid()
      ensures ok <==> handle != null
      ensures handle == old(handle) && shareHandle == old(shareHandle)
      ensures log == old(log) + if handle == null then []
                              else [Closed(handle)] + if shareHandle == null then [] else [ShareClosed(shareHandle)]
      ensures Live(log) == {}
    {
      if handle == null {
        return false;
      }
      ShareStep(log, Closed(handle));
      LiveStep(log, Closed(handle));
      SharesCreatedStep(log, Closed(handle), shareHandle);
      log := log + [Closed(handle)];
      assert Live(log) == {};
      if shareHandle != null {
        ShareStep(log, ShareClosed(shareHandle));
        LiveStep(log, ShareClosed(shareHandle));
        SharesCreatedStep(log, ShareClosed(shareHandle), shareHandle);
        log := log + [ShareClosed(shareHandle)];
      }
      ok := true;
    }
  }

  // ---------------------------------------------------------------------------
  // Clients

  /** initialize(true) twice on a fresh client: one share handle, created
      first; two transport handles, the first closed before the second is
      created. */
  method InitializeTwice() returns (c: Curl)
    ensures fresh(c) && c.Valid()
    ensures c.shareHandle != null && c.handle != null
    ensures |c.log| == 4
    ensures c.log[0] == ShareOpened(c.shareHandle)
    ensures c.log[1].Opened? && c.log[1].handle != c.handle
    ensures c.log[2] == Closed(c.log[1].handle)
    ensures c.log[3] == Opened(c.handle)
  {
    c := new Curl(null, null);
    c.Initialize(true);
    c.Initialize(true);
  }

  /** setHeader("X", "1") then getHeader("X") gives "1"; setHeader("X", null)
      then getHeader("X", "d") gives "d"; clearHeaders() leaves headers()
      empty. */
  method HeaderRoundTrip() returns (stored: Option<string>, removed: Option<string>, cleared: map<string, string>)
    ensures stored == Some("1") && removed == Some("d") && cleared == map[]
  {
    var c := new Curl();
    c.SetHeader("X", Some("1"));
    stored := c.GetHeader("X");
    c.SetHeader("X");
    removed := c.GetHeader("X", Some("d"));
    c.SetHeader("Y", Some("2"));
    c.ClearHeaders();
    cleared := c.Headers();
  }
}
