/**
 * `OpcUaClient.OpcUaClient`: the decisions the client takes around the OPC
 * UA stack. Every call into the stack (discovery, session creation, read,
 * write, close) is a parameter standing for what the stack answered; `None`
 * stands for a null answer or an exception.
 */
module Client {
  import opened Wrappers
  import opened NumberFormat
  import opened Model

  /** OPC UA MessageSecurityMode. */
  datatype MessageSecurityMode = Invalid | NoSecurity | Sign | SignAndEncrypt

  /** The parts of an EndpointDescription the client looks at. */
  datatype EndpointDescription = EndpointDescription(
    endpointUrl: string, securityMode: MessageSecurityMode, securityPolicyUri: string)

  /** An ApplicationDescription returned by FindServers; `discoveryUrls` is `None` when the collection is null. */
  datatype ApplicationDescription = ApplicationDescription(
    applicationUri: string, discoveryUrls: Option<seq<string>>)

  /** What the discovery services answer for a URL (FindServers, GetEndpoints). */
  datatype Discovery = Discovery(
    findServers: string -> Option<seq<ApplicationDescription>>,
    getEndpoints: string -> Option<seq<EndpointDescription>>)

  /**
   * The answer of `session.ReadValues`: values and ServiceResults, meant to be
   * parallel to the request; a `None` entry is a null ServiceResult.
   */
  datatype ReadResponse = ReadResponse(values: seq<Value>, statusCodes: seq<Option<uint32>>)

  /** The answer of `session.Write`: the service result of the response header and one code per item. */
  datatype WriteResponse = WriteResponse(serviceResult: uint32, results: seq<uint32>)

  /** The value part of a WriteValue: a plain Variant, or an ExtensionObject keyed by a type node id. */
  datatype DataValue = Scalar(value: Value) | Extension(typeId: string, body: Value)

  /** A WriteValue of the request: node id, attribute id and the value to write. */
  datatype WriteValue = WriteValue(nodeId: string, attributeId: nat, value: DataValue)

  /** The attribute id of the Value attribute (OPC UA Part 6, Annex A). */
  const ValueAttribute: nat := 13

  /** The SecurityConfiguration setting the certificate handler consults. */
  datatype SecurityConfiguration = SecurityConfiguration(autoAcceptUntrustedCertificates: bool)

  /** The endpoints found behind a list of discovery URLs, in order; `None` if any URL gives no answer. */
  function EndpointsOf(urls: seq<string>, getEndpoints: string -> Option<seq<EndpointDescription>>)
    : (r: Option<seq<EndpointDescription>>)
    ensures r.Some? <==> forall i :: 0 <= i < |urls| ==> getEndpoints(urls[i]).Some?
    decreases |urls|
  {
    if urls == [] then Some([])
    else
      var init := urls[..|urls| - 1];
      match (EndpointsOf(init, getEndpoints), getEndpoints(urls[|urls| - 1]))
      case (Some(prefix), Some(eps)) =>
        assert forall i :: 0 <= i < |init| ==> init[i] == urls[i];
        Some(prefix + eps)
      case _ => None
  }

  /** A server's endpoints are known when its URL collection is there and every URL answers. */
  predicate Answers(server: ApplicationDescription, getEndpoints: string -> Option<seq<EndpointDescription>>)
  {
    server.discoveryUrls.Some? && EndpointsOf(server.discoveryUrls.value, getEndpoints).Some?
  }

  /** The endpoints of a list of servers, in order; `None` if any step has no answer. */
  function EndpointsOfServers(servers: seq<ApplicationDescription>,
                              getEndpoints: string -> Option<seq<EndpointDescription>>)
    : (r: Option<seq<EndpointDescription>>)
    ensures r.Some? <==> forall i :: 0 <= i < |servers| ==> Answers(servers[i], getEndpoints)
    decreases |servers|
  {
    if servers == [] then Some([])
    else
      var init := servers[..|servers| - 1];
      var last := servers[|servers| - 1];
      match EndpointsOfServers(init, getEndpoints)
      case None => None
      case Some(prefix) =>
        assert forall i :: 0 <= i < |init| ==> init[i] == servers[i];
        if !Answers(last, getEndpoints) then None
        else Some(prefix + EndpointsOf(last.discoveryUrls.value, getEndpoints).value)
  }

  /** The flattened endpoint list for a server URL, or `None` (null) when any step fails. */
  function DiscoveredEndpoints(serverUrl: string, discovery: Discovery): Option<seq<EndpointDescription>>
  {
    match discovery.findServers(serverUrl)
    case None => None
    case Some(servers) => EndpointsOfServers(servers, discovery.getEndpoints)
  }

  /** `List<EndpointDescription>.Find(ep => ep.SecurityMode == mode)`: the first endpoint with that mode. */
  function FindEndpoint(endpoints: seq<EndpointDescription>, mode: MessageSecurityMode)
    : (r: Option<EndpointDescription>)
    ensures r.None? <==> forall i :: 0 <= i < |endpoints| ==> endpoints[i].securityMode != mode
    ensures r.Some? ==> exists k :: FirstWithMode(endpoints, k, mode) && endpoints[k] == r.value
  {
    if endpoints == [] then None
    else if endpoints[0].securityMode == mode then
      assert FirstWithMode(endpoints, 0, mode);
      Some(endpoints[0])
    else
      var r := FindEndpoint(endpoints[1..], mode);
      assert forall i :: 0 < i < |endpoints| ==> endpoints[i] == endpoints[1..][i - 1];
      if r.Some? then
        var k :| FirstWithMode(endpoints[1..], k, mode) && endpoints[1..][k] == r.value;
        assert FirstWithMode(endpoints, k + 1, mode) && endpoints[k + 1] == r.value;
        r
      else
        r
  }

  /** Position `k` holds the first endpoint with security mode `mode`. */
  predicate FirstWithMode(endpoints: seq<EndpointDescription>, k: int, mode: MessageSecurityMode)
  {
    0 <= k < |endpoints| && endpoints[k].securityMode == mode &&
    forall j :: 0 <= j < k ==> endpoints[j].securityMode != mode
  }

  /** The endpoint `Connect` opens a session on, if any. */
  function ChosenEndpoint(serverUrl: string, mode: MessageSecurityMode, discovery: Discovery)
    : Option<EndpointDescription>
  {
    match DiscoveredEndpoints(serverUrl, discovery)
    case None => None
    case Some(endpoints) => FindEndpoint(endpoints, mode)
  }

  /** The stack's Session, reduced to the two flags the client consults. */
  class Session {
    const endpoint: EndpointDescription
    var connected: bool
    var disposed: bool

    /** A session is never connected once disposed. */
    ghost predicate Valid()
      reads this
    {
      connected ==> !disposed
    }

    /** `Session.Create`, when it succeeds: a fresh, connected session on the endpoint. */
    constructor Create(endpoint: EndpointDescription)
      ensures Valid() && this.endpoint == endpoint && connected && !disposed
    {
      this.endpoint := endpoint;
      connected := true;
      disposed := false;
    }

    /** `Session.Close`: the session is no longer connected. */
    method Close()
      modifies this
      ensures Valid() && !connected && disposed == old(disposed)
    {
      connected := false;
    }

    /** `Session.Dispose`. */
    method Dispose()
      modifies this
      ensures Valid() && !connected && disposed
    {
      connected := false;
      disposed := true;
    }
  }

  /** The event arguments of a certificate validation: the thumbprint and the `Accept` flag the handler sets. */
  class CertificateValidationEventArgs {
    const thumbprint: string
    var accept: bool

    constructor (thumbprint: string)
      ensures this.thumbprint == thumbprint && !accept
    {
      this.thumbprint := thumbprint;
      accept := false;
    }
  }

  class OpcUaClient {
    /** `m_configuration`; `None` when it is null. */
    const configuration: Option<SecurityConfiguration>
    var session: Session?

    ghost predicate Valid()
      reads this, session
    {
      session != null ==> session.Valid()
    }

    /** A client with the loaded configuration and no session yet. */
    constructor (configuration: Option<SecurityConfiguration>)
      ensures Valid() && this.configuration == configuration && session == null
    {
      this.configuration := configuration;
      session := null;
    }

    /** `Connected`: there is a session and it is connected; such a session is never disposed. */
    function Connected(): (r: bool)
      reads this, session
      requires Valid()
      ensures r ==> session != null && !session.disposed
    {
      session != null && session.connected
    }

    /**
     * `Notification_ServerCertificate`. `rootStore` holds the thumbprints of
     * the valid certificates of the current user's Root store, or is `None`
     * when the store cannot be read; then the exception is caught and
     * `Accept` keeps its value. A certificate is accepted when it is in the
     * store, otherwise exactly when untrusted certificates are auto-accepted
     * (with a null configuration that lookup throws, and `Accept` again keeps
     * its value).
     */
    method NotificationServerCertificate(e: CertificateValidationEventArgs, rootStore: Option<set<string>>)
      modifies e
      ensures rootStore.None? ==> e.accept == old(e.accept)
      ensures rootStore.Some? && e.thumbprint in rootStore.value ==> e.accept
      ensures rootStore.Some? && e.thumbprint !in rootStore.value ==>
        e.accept == if configuration.Some? then configuration.value.autoAcceptUntrustedCertificates else old(e.accept)
      ensures rootStore.Some? && configuration.Some? ==>
        (e.accept <==> e.thumbprint in rootStore.value || configuration.value.autoAcceptUntrustedCertificates)
    {
      match rootStore
      case None =>
      case Some(store) =>
        if e.thumbprint in store {
          e.accept := true;
        } else if configuration.Some? {
          e.accept := configuration.value.autoAcceptUntrustedCertificates;
        }
    }

    /**
     * `ListEndpoints`: every endpoint of every discovery URL of every server
     * found, in order, added one by one; `None` (null) as soon as a step
     * fails, never a partial list.
     */
    method ListEndpoints(serverUrl: string, discovery: Discovery) returns (r: Option<seq<EndpointDescription>>)
      ensures r == DiscoveredEndpoints(serverUrl, discovery)
      ensures r.Some? <==> (
        discovery.findServers(serverUrl).Some? &&
        forall i :: 0 <= i < |discovery.findServers(serverUrl).value| ==>
          Answers(discovery.findServers(serverUrl).value[i], discovery.getEndpoints))
    {
      var servers := discovery.findServers(serverUrl);
      if servers.None? {
        return None;
      }
      var endPointsList: seq<EndpointDescription> := [];
      for s := 0 to |servers.value|
        invariant EndpointsOfServers(servers.value[..s], discovery.getEndpoints) == Some(endPointsList)
      {
        var ad := servers.value[s];
        assert servers.value[..s + 1][..s] == servers.value[..s];
        if ad.discoveryUrls.None? {
          assert !Answers(servers.value[..s + 1][s], discovery.getEndpoints);
          NoAnswerStops(servers.value, s + 1, discovery.getEndpoints);
          return None;
        }
        var urls := ad.discoveryUrls.value;
        ghost var before := endPointsList;
        for u := 0 to |urls|
          invariant EndpointsOf(urls[..u], discovery.getEndpoints).Some?
          invariant endPointsList == before + EndpointsOf(urls[..u], discovery.getEndpoints).value
        {
          assert urls[..u + 1][..u] == urls[..u];
          var endpoints := discovery.getEndpoints(urls[u]);
          if endpoints.None? {
            assert !EndpointsOf(urls, discovery.getEndpoints).Some?;
            assert !Answers(servers.value[..s + 1][s], discovery.getEndpoints);
            NoAnswerStops(servers.value, s + 1, discovery.getEndpoints);
            return None;
          }
          for k := 0 to |endpoints.value|
            invariant endPointsList == before + EndpointsOf(urls[..u], discovery.getEndpoints).value + endpoints.value[..k]
          {
            endPointsList := endPointsList + [endpoints.value[k]];
            assert endpoints.value[..k + 1] == endpoints.value[..k] + [endpoints.value[k]];
          }
          assert endpoints.value[..|endpoints.value|] == endpoints.value;
        }
        assert urls[..|urls|] == urls;
      }
      assert servers.value[..|servers.value|] == servers.value;
      r := Some(endPointsList);
    }

    /**
     * `Disconnect`: with no session it does nothing; otherwise the session is
     * closed and disposed, unless `Close` throws (`closeFails`), which is
     * caught. The `session` field is never cleared.
     */
    method Disconnect(closeFails: bool)
      requires Valid()
      modifies session
      ensures Valid() && session == old(session)
      ensures session != null && !closeFails ==> !session.connected && session.disposed && !Connected()
      ensures session != null && closeFails ==> (
        session.connected == old(session.connected) && session.disposed == old(session.disposed))
    {
      if session != null {
        if !closeFails {
          session.Close();
          if !session.disposed {
            session.Dispose();
          }
        }
      }
    }

    /**
     * `Connect`: with a configuration, first disconnects a live session
     * (`closeFails` says whether its `Close` throws), then lists the
     * endpoints and takes the first one with the requested security mode;
     * a new session replaces the old one only when there is such an endpoint
     * and `Session.Create` succeeds (`created`). Every failure is caught.
     */
    method Connect(serverUrl: string, securityMode: MessageSecurityMode, discovery: Discovery,
                   closeFails: bool, created: bool)
      requires Valid()
      modifies this, session
      ensures Valid()
      ensures configuration.None? ==> session == old(session)
      ensures configuration.None? && session != null ==> (
        session.connected == old(session.connected) && session.disposed == old(session.disposed))
      ensures configuration.Some? && old(session) != null && !old(session.disposed) && !closeFails ==>
        !old(session).connected && old(session).disposed
      ensures old(session) != null && (configuration.None? || old(session.disposed) || closeFails) ==> (
        old(session).connected == old(session.connected) && old(session).disposed == old(session.disposed))
      ensures configuration.Some? && ChosenEndpoint(serverUrl, securityMode, discovery).Some? && created ==> (
        fresh(session) && Connected() &&
        session.endpoint == ChosenEndpoint(serverUrl, securityMode, discovery).value)
      ensures !(configuration.Some? && ChosenEndpoint(serverUrl, securityMode, discovery).Some? && created) ==> (
        session == old(session))
    {
      if configuration.None? {
        return;
      }
      if session != null && !session.disposed {
        Disconnect(closeFails);
      }
      var endpointsList := ListEndpoints(serverUrl, discovery);
      if endpointsList.None? {
        return;
      }
      var endpointDescription := FindEndpoint(endpointsList.value, securityMode);
      if endpointDescription.Some? && created {
        session := new Session.Create(endpointDescription.value);
      }
    }

    /**
     * `ReadValues`: one OpcValue per requested node, built from the value
     * and status code at the same position; `None` (null) when there is no
     * session, when the read throws, when the answer is too short, or when
     * one of the ServiceResults read is null (the OpcValue constructor then
     * throws).
     */
    method ReadValues(opcNodes: seq<string>, read: seq<string> -> Option<ReadResponse>)
      returns (r: Option<seq<OpcValue>>)
      ensures r.Some? <==> (
        session != null && read(opcNodes).Some? &&
        |read(opcNodes).value.values| >= |opcNodes| && |read(opcNodes).value.statusCodes| >= |opcNodes| &&
        forall i :: 0 <= i < |opcNodes| ==> read(opcNodes).value.statusCodes[i].Some?)
      ensures r.Some? ==> |r.value| == |opcNodes|
      ensures r.Some? ==> forall i :: 0 <= i < |opcNodes| ==> (
        r.value[i].value == read(opcNodes).value.values[i] &&
        r.value[i].statusCode == read(opcNodes).value.statusCodes[i].value &&
        r.value[i].status == IsGood(read(opcNodes).value.statusCodes[i].value))
    {
      if session == null {
        return None;
      }
      var response := read(opcNodes);
      if response.None? {
        return None;
      }
      var values, statusCodes := response.value.values, response.value.statusCodes;
      var count := |opcNodes|;
      var opcValues: seq<OpcValue> := [];
      for i := 0 to count
        invariant |opcValues| == i && i <= |values| && i <= |statusCodes|
        invariant forall j :: 0 <= j < i ==>
          j < |values| && j < |statusCodes| && statusCodes[j].Some? &&
          opcValues[j].value == values[j] && opcValues[j].statusCode == statusCodes[j].value &&
          opcValues[j].status == IsGood(statusCodes[j].value)
      {
        if i >= |values| || i >= |statusCodes| || statusCodes[i].None? {
          return None;
        }
        var opcValue := new OpcValue.FromResult(values[i], statusCodes[i].value);
        opcValues := opcValues + [opcValue];
      }
      r := Some(opcValues);
    }

    /** The request items of a write, node by node: a plain Variant, or an ExtensionObject keyed by the node id. */
    static method BuildWriteValues(opcNodes: seq<string>, values: seq<Value>, asExtension: bool)
      returns (writeValues: seq<WriteValue>)
      requires |opcNodes| == |values|
      ensures |writeValues| == |opcNodes|
      ensures forall i :: 0 <= i < |opcNodes| ==>
        writeValues[i].nodeId == opcNodes[i] && writeValues[i].attributeId == ValueAttribute &&
        writeValues[i].value == if asExtension then Extension(opcNodes[i], values[i]) else Scalar(values[i])
    {
      writeValues := [];
      for i := 0 to |opcNodes|
        invariant |writeValues| == i
        invariant forall j :: 0 <= j < i ==>
          writeValues[j].nodeId == opcNodes[j] && writeValues[j].attributeId == ValueAttribute &&
          writeValues[j].value == if asExtension then Extension(opcNodes[j], values[j]) else Scalar(values[j])
      {
        var dataVal := if asExtension then Extension(opcNodes[i], values[i]) else Scalar(values[i]);
        writeValues := writeValues + [WriteValue(opcNodes[i], ValueAttribute, dataVal)];
      }
    }

    /**
     * The status loop shared by `WriteValues` and `WriteUDT`: one flag per
     * node, `ret` the header's goodness and-ed with every flag; `None` when
     * the answer has fewer codes than nodes (the index error is caught).
     */
    static method AggregateStatus(response: WriteResponse, count: nat)
      returns (ret: bool, status: Option<seq<bool>>)
      ensures status.Some? <==> count <= |response.results|
      ensures status.Some? ==> |status.value| == count
      ensures status.Some? ==> forall i :: 0 <= i < count ==> status.value[i] == IsGood(response.results[i])
      ensures ret <==> (
        status.Some? && IsGood(response.serviceResult) &&
        forall i :: 0 <= i < count ==> IsGood(response.results[i]))
    {
      ret := IsGood(response.serviceResult);
      var flags: seq<bool> := [];
      for i := 0 to count
        invariant |flags| == i && i <= |response.results|
        invariant forall j :: 0 <= j < i ==> flags[j] == IsGood(response.results[j])
        invariant ret <==> IsGood(response.serviceResult) && forall j :: 0 <= j < i ==> IsGood(response.results[j])
      {
        if i >= |response.results| {
          return false, None;
        }
        flags := flags + [IsGood(response.results[i])];
        ret := ret && flags[i];
      }
      status := Some(flags);
    }

    /**
     * `WriteValues`: nodes and values of different lengths are refused
     * before any request is sent; otherwise all items go out in one `Write`
     * and the outcome is aggregated. `sent` is the batch handed to `Write`,
     * `None` when no write was issued.
     */
    method WriteValues(opcNodes: seq<string>, values: seq<Value>, write: seq<WriteValue> -> Option<WriteResponse>)
      returns (ret: bool, status: Option<seq<bool>>, ghost sent: Option<seq<WriteValue>>)
      ensures |opcNodes| != |values| ==> !ret && status.None? && sent.None?
      ensures session == null ==> !ret && status.None? && sent.None?
      ensures sent.Some? <==> |opcNodes| == |values| && session != null
      ensures sent.Some? ==> |sent.value| == |opcNodes|
      ensures sent.Some? ==> forall i :: 0 <= i < |opcNodes| ==>
        sent.value[i] == WriteValue(opcNodes[i], ValueAttribute, Scalar(values[i]))
      ensures status.Some? <==> (
        sent.Some? && write(sent.value).Some? && |write(sent.value).value.results| >= |opcNodes|)
      ensures status.Some? ==> |status.value| == |opcNodes|
      ensures status.Some? ==> forall i :: 0 <= i < |opcNodes| ==>
        status.value[i] == IsGood(write(sent.value).value.results[i])
      ensures ret <==> (
        status.Some? && IsGood(write(sent.value).value.serviceResult) &&
        forall i :: 0 <= i < |opcNodes| ==> status.value[i])
    {
      ret, status, sent := false, None, None;
      if |opcNodes| != |values| || session == null {
        return;
      }
      var writeValues := BuildWriteValues(opcNodes, values, false);
      sent := Some(writeValues);
      var response := write(writeValues);
      if response.None? {
        return;
      }
      ret, status := AggregateStatus(response.value, |opcNodes|);
    }

    /**
     * `WriteUDT`: as `WriteValues`, each value wrapped in an ExtensionObject
     * whose type id is the node id.
     */
    method WriteUDT(opcNodes: seq<string>, values: seq<Value>, write: seq<WriteValue> -> Option<WriteResponse>)
      returns (ret: bool, status: Option<seq<bool>>, ghost sent: Option<seq<WriteValue>>)
      ensures |opcNodes| != |values| ==> !ret && status.None? && sent.None?
      ensures session == null ==> !ret && status.None? && sent.None?
      ensures sent.Some? <==> |opcNodes| == |values| && session != null
      ensures sent.Some? ==> |sent.value| == |opcNodes|
      ensures sent.Some? ==> forall i :: 0 <= i < |opcNodes| ==>
        sent.value[i] == WriteValue(opcNodes[i], ValueAttribute, Extension(opcNodes[i], values[i]))
      ensures status.Some? <==> (
        sent.Some? && write(sent.value).Some? && |write(sent.value).value.results| >= |opcNodes|)
      ensures status.Some? ==> |status.value| == |opcNodes|
      ensures status.Some? ==> forall i :: 0 <= i < |opcNodes| ==>
        status.value[i] == IsGood(write(sent.value).value.results[i])
      ensures ret <==> (
        status.Some? && IsGood(write(sent.value).value.serviceResult) &&
        forall i :: 0 <= i < |opcNodes| ==> status.value[i])
    {
      ret, status, sent := false, None, None;
      if |opcNodes| != |values| || session == null {
        return;
      }
      var writeValues := BuildWriteValues(opcNodes, values, true);
      sent := Some(writeValues);
      var response := write(writeValues);
      if response.None? {
        return;
      }
      ret, status := AggregateStatus(response.value, |opcNodes|);
    }
  }

  /** A server without an answer among the first `n` makes the whole list of servers unanswered. */
  lemma NoAnswerStops(servers: seq<ApplicationDescription>, n: nat,
                      getEndpoints: string -> Option<seq<EndpointDescription>>)
    requires 0 < n <= |servers| && !Answers(servers[..n][n - 1], getEndpoints)
    ensures EndpointsOfServers(servers, getEndpoints).None?
  {
    assert servers[..n][n - 1] == servers[n - 1];
  }
}
