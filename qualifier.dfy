/** The first half of `analyze_event`: an event is passed on only when one of
    its endpoints is public, and then as a fixed nine-field record. The
    analysis request that follows is a foreign network call; it appears here
    only as a dispatcher that either answers with a text or fails. */
module Qualifier {
  import opened Wrappers
  import opened Json
  import opened Text
  import opened Classifier

  /** `event_data`: the nine fields an analysis request is built from. */
  datatype NormalizedEvent = NormalizedEvent(
    timestamp: JsonValue,
    eventType: JsonValue,
    srcIp: JsonValue,
    srcPort: JsonValue,
    destIp: JsonValue,
    destPort: JsonValue,
    proto: JsonValue,
    appProto: JsonValue,
    alert: JsonValue)
  {
    /** The record as the dictionary the analyzer builds. */
    function ToMap(): map<string, JsonValue> {
      map[
        "timestamp" := timestamp, "event_type" := eventType,
        "src_ip" := srcIp, "src_port" := srcPort,
        "dest_ip" := destIp, "dest_port" := destPort,
        "proto" := proto, "app_proto" := appProto,
        "alert" := alert]
    }
  }

  const FieldNames: set<string> :=
    {"timestamp", "event_type", "src_ip", "src_port", "dest_ip", "dest_port", "proto", "app_proto", "alert"}

  /** The value a field takes when the event lacks it: an empty mapping for
      `alert`, the empty text for every other field. */
  function Default(key: string): JsonValue {
    if key == "alert" then JObject(map[]) else JString("")
  }

  /** The endpoint addresses, `event.get("src_ip", "")` and `event.get("dest_ip", "")`. */
  function SrcIp(event: map<string, JsonValue>): JsonValue {
    Get(event, "src_ip", JString(""))
  }

  function DestIp(event: map<string, JsonValue>): JsonValue {
    Get(event, "dest_ip", JString(""))
  }

  /** The projection of an event onto the nine fields. */
  function Project(event: map<string, JsonValue>): NormalizedEvent {
    NormalizedEvent(
      Get(event, "timestamp", JString("")),
      Get(event, "event_type", JString("")),
      SrcIp(event),
      Get(event, "src_port", JString("")),
      DestIp(event),
      Get(event, "dest_port", JString("")),
      Get(event, "proto", JString("")),
      Get(event, "app_proto", JString("")),
      Get(event, "alert", JObject(map[])))
  }

  /** `None` unless at least one endpoint is public; otherwise the projection. */
  function Qualify(event: map<string, JsonValue>, v6: Ipv6Oracle): Option<NormalizedEvent> {
    if !(IsPublicIp(SrcIp(event), v6) || IsPublicIp(DestIp(event), v6)) then None
    else Some(Project(event))
  }

  /** What `analyze_event` returns when the analysis request succeeds. */
  datatype AnalysisResult = AnalysisResult(event: NormalizedEvent, analysis: string)

  /** `analyze_event(event)`. `dispatch` stands for the analysis request: `None`
      when it fails (the catch-all handler returns `None`), otherwise the text
      of the first answer, which the analyzer strips. */
  function AnalyzeEvent(event: map<string, JsonValue>, v6: Ipv6Oracle,
                        dispatch: NormalizedEvent -> Option<string>): Option<AnalysisResult>
  {
    match Qualify(event, v6)
    case None => None
    case Some(e) =>
      match dispatch(e)
      case None => None
      case Some(text) => Some(AnalysisResult(e, Strip(text)))
  }

  // ---------------------------------------------------------------- qualification

  /** An event qualifies exactly when it carries an endpoint field whose value
      is a public address: an absent endpoint reads as `""`, which is never public. */
  lemma QualifiesIffPublicEndpoint(event: map<string, JsonValue>, v6: Ipv6Oracle)
    ensures Qualify(event, v6).Some? <==>
      || ("src_ip" in event && IsPublicIp(event["src_ip"], v6))
      || ("dest_ip" in event && IsPublicIp(event["dest_ip"], v6))
  {
    EmptyTextNeverPublic(v6);
  }

  /** An event none of whose endpoints is public never reaches the dispatcher:
      the answer is `None` whatever the dispatcher would do. */
  lemma NoDispatchUnlessQualified(event: map<string, JsonValue>, v6: Ipv6Oracle,
                                                     d1: NormalizedEvent -> Option<string>,
                                                     d2: NormalizedEvent -> Option<string>)
    requires !IsPublicIp(SrcIp(event), v6) && !IsPublicIp(DestIp(event), v6)
    ensures AnalyzeEvent(event, v6, d1) == AnalyzeEvent(event, v6, d2) == None
  {
  }

  /** What a saved analysis carries: the projection of the event, whose
      endpoints are the values classified and at least one of them public, and
      a slice of the dispatcher's answer with no whitespace left at either end;
      a result exists only when the request answered. */
  lemma ResultOfQualified(event: map<string, JsonValue>, v6: Ipv6Oracle,
                          dispatch: NormalizedEvent -> Option<string>, r: AnalysisResult)
    requires AnalyzeEvent(event, v6, dispatch) == Some(r)
    ensures r.event == Project(event)
    ensures r.event.srcIp == SrcIp(event) && r.event.destIp == DestIp(event)
    ensures IsPublicIp(r.event.srcIp, v6) || IsPublicIp(r.event.destIp, v6)
    ensures dispatch(Project(event)).Some?
    ensures exists i, j ::
      (0 <= i <= j <= |dispatch(Project(event)).value| && r.analysis == dispatch(Project(event)).value[i..j])
    ensures r.analysis == [] || (!IsSpace(r.analysis[0]) && !IsSpace(r.analysis[|r.analysis| - 1]))
  {
    StripEnds(dispatch(Project(event)).value);
  }

  /** A failed analysis request (the catch-all handler) gives no result, even
      for a qualifying event. */
  lemma FailedRequestGivesNone(event: map<string, JsonValue>, v6: Ipv6Oracle,
                               dispatch: NormalizedEvent -> Option<string>)
    requires dispatch(Project(event)) == None
    ensures AnalyzeEvent(event, v6, dispatch) == None
  {
  }

  // ---------------------------------------------------------------- projection

  /** The projected record has exactly the nine keys; each holds the event's
      own value when present and the field's default otherwise, so a missing
      key is never an error. */
  lemma ProjectionFields(event: map<string, JsonValue>)
    ensures Project(event).ToMap().Keys == FieldNames
    ensures forall k :: k in FieldNames ==>
      Project(event).ToMap()[k] == (if k in event then event[k] else Default(k))
  {
    RecordKeys(Project(event));
    var m := Project(event).ToMap();
    forall k | k in FieldNames
      ensures m[k] == (if k in event then event[k] else Default(k))
    {
      FieldValue(event, k);
    }
  }

  lemma RecordKeys(e: NormalizedEvent)
    ensures e.ToMap().Keys == FieldNames
  {
  }

  lemma FieldValue(event: map<string, JsonValue>, k: string)
    requires k in FieldNames
    ensures Project(event).ToMap()[k] == Get(event, k, Default(k))
  {
    if k == "alert" {
    } else if k == "timestamp" {
    } else if k == "event_type" {
    } else if k == "src_ip" {
    } else if k == "src_port" {
    } else if k == "dest_ip" {
    } else if k == "dest_port" {
    } else if k == "proto" {
    } else {
      assert k == "app_proto";
    }
  }

  /** The endpoints of the record are the very values the classification
      looked at. */
  lemma ProjectionKeepsEndpoints(event: map<string, JsonValue>, v6: Ipv6Oracle)
    requires Qualify(event, v6).Some?
    ensures Qualify(event, v6).value.srcIp == SrcIp(event)
    ensures Qualify(event, v6).value.destIp == DestIp(event)
    ensures IsPublicIp(Qualify(event, v6).value.srcIp, v6) || IsPublicIp(Qualify(event, v6).value.destIp, v6)
  {
  }

  /** A record reads back from its own dictionary unchanged. */
  lemma ProjectToMap(e: NormalizedEvent)
    ensures Project(e.ToMap()) == e
  {
    var m := e.ToMap();
    assert "timestamp" in m && "event_type" in m && "src_ip" in m && "src_port" in m;
    assert "dest_ip" in m && "dest_port" in m && "proto" in m && "app_proto" in m && "alert" in m;
  }

  // ---------------------------------------------------------------- examples

  /** A listed resolver talking to a host in a custom block: nothing to analyze. */
  lemma ResolverToCustomExample(event: map<string, JsonValue>, s: string, t: string, v6: Ipv6Oracle)
    requires s == "8.8.8.8" && t == "192.168.1.5"
    requires event == map["src_ip" := JString(s), "dest_ip" := JString(t)]
    ensures Qualify(event, v6) == None
  {
    ResolverExample(s, v6);
    CustomExamples(t, "20.20.20.7", v6);
  }

  /** A documentation address talking to a private host does not qualify
      either: the library counts 203.0.113.0/24 as private. */
  lemma DocumentationExampleEvent(event: map<string, JsonValue>, s: string, t: string, v6: Ipv6Oracle)
    requires s == "203.0.113.9" && t == "10.0.0.5"
    requires event == map["src_ip" := JString(s), "dest_ip" := JString(t)]
    ensures Qualify(event, v6) == None
  {
    DocumentationExample(s, v6);
    PrivateUseExample(t, v6);
  }

  /** A routable source qualifies; every field the event lacks takes its default. */
  lemma PublicExampleEvent(event: map<string, JsonValue>, s: string, t: string, v6: Ipv6Oracle)
    requires s == "93.184.216.34" && t == "10.0.0.5"
    requires event == map["src_ip" := JString(s), "dest_ip" := JString(t)]
    ensures Qualify(event, v6).Some?
    ensures Qualify(event, v6).value.srcIp == JString(s)
    ensures Qualify(event, v6).value.alert == JObject(map[])
    ensures Qualify(event, v6).value.timestamp == JString("")
  {
    PublicExample(s, Ipv4.Octets(93, 184, 216, 34), v6);
  }

  /** An event without any endpoint field never qualifies. */
  lemma NoEndpointsExample(event: map<string, JsonValue>, v6: Ipv6Oracle)
    requires "src_ip" !in event && "dest_ip" !in event
    ensures Qualify(event, v6) == None
  {
    EmptyTextNeverPublic(v6);
  }
}
