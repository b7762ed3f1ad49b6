/** What the two ends learn about each other from their connection banners, and the ack mode they pick. */
module Negotiation {
  import opened Common
  import opened Strings

  const DELAYED_ACK: string := "delayed_ack"
  const NAME_KEY: string := "ro.product.name"
  const MODEL_KEY: string := "ro.product.model"
  const DEVICE_KEY: string := "ro.product.device"
  const FEATURES_KEY: string := "features"

  // ---------- feature lists ----------

  function FeatureSetToString(features: seq<string>): string { Join(features, ',') }

  function StringToFeatureSet(s: string): seq<string> { if s == "" then [] else SplitFrom(s, ',', 0) }

  /** A printed feature list reads back, unless its only feature is the empty name. */
  lemma FeaturesReadBack(features: seq<string>)
    requires AllFree(features, ',')
    ensures StringToFeatureSet(FeatureSetToString(features)) == features <==> features != [""]
  {
    if features != [] && features != [""] {
      SplitsBack(features, ',');
      assert |features| == 1 ==> features == [features[0]];
    }
  }

  // ---------- what an end knows about its peer ----------

  datatype ConnectionState = Bootloader | Device | Recovery | Sideload | Rescue | Host

  datatype Peer = Peer(
    product: string, model: string, device: string, features: seq<string>, delayedAck: bool, state: ConnectionState)

  /** `SetFeatures` of a transport on an end that supports `supported`. */
  function WithFeatures(p: Peer, s: string, supported: seq<string>): Peer {
    var features := StringToFeatureSet(s);
    p.(features := features, delayedAck := DELAYED_ACK in features && DELAYED_ACK in supported)
  }

  function WithValue(p: Peer, key: string, value: string, supported: seq<string>): Peer {
    if key == NAME_KEY then p.(product := value)
    else if key == MODEL_KEY then p.(model := value)
    else if key == DEVICE_KEY then p.(device := value)
    else if key == FEATURES_KEY then WithFeatures(p, value, supported)
    else p
  }

  function WithProperty(p: Peer, prop: string, supported: seq<string>): Peer {
    var parts := SplitFrom(prop, '=', 0);
    if prop == "" || |parts| != 2 then p else WithValue(p, parts[0], parts[1], supported)
  }

  function WithProperties(p: Peer, props: seq<string>, supported: seq<string>): Peer {
    if props == [] then p
    else WithProperty(WithProperties(p, props[..|props| - 1], supported), props[|props| - 1], supported)
  }

  function StateOf(kind: string): ConnectionState {
    if kind == "bootloader" then Bootloader
    else if kind == "device" then Device
    else if kind == "recovery" then Recovery
    else if kind == "sideload" then Sideload
    else if kind == "rescue" then Rescue
    else Host
  }

  function ParsedBanner(p: Peer, banner: string, supported: seq<string>): Peer {
    var pieces := SplitFrom(banner, ':', 0);
    var reset := WithFeatures(p, "", supported);
    var told := if |pieces| > 2 then WithProperties(reset, SplitFrom(pieces[2], ';', 0), supported) else reset;
    told.(state := StateOf(pieces[0]))
  }

  class Transport {
    const supported: seq<string>
    var product: string
    var model: string
    var device: string
    var features: seq<string>
    var delayedAck: bool
    var state: ConnectionState

    constructor (supported: seq<string>)
      ensures this.supported == supported && Value() == Peer("", "", "", [], false, Host)
    {
      this.supported := supported;
      product, model, device, features, delayedAck, state := "", "", "", [], false, Host;
    }

    ghost function Value(): Peer
      reads this
    {
      Peer(product, model, device, features, delayedAck, state)
    }

    method SetFeatures(s: string)
      modifies this
      ensures Value() == WithFeatures(old(Value()), s, supported)
    {
      if s == "" {
        features := [];
      } else {
        features := Split(s, ",");
      }
      delayedAck := DELAYED_ACK in features && DELAYED_ACK in supported;
    }

    method SetProperty(prop: string)
      modifies this
      ensures Value() == WithProperty(old(Value()), prop, supported)
    {
      if prop == "" {
        return;
      }
      var parts := Split(prop, "=");
      if |parts| != 2 {
        return;
      }
      var key, value := parts[0], parts[1];
      if key == NAME_KEY {
        product := value;
      } else if key == MODEL_KEY {
        model := value;
      } else if key == DEVICE_KEY {
        device := value;
      } else if key == FEATURES_KEY {
        SetFeatures(value);
      }
    }

    method ParseBanner(banner: string)
      modifies this
      ensures Value() == ParsedBanner(old(Value()), banner, supported)
    {
      var pieces := Split(banner, ":");
      SetFeatures("");
      if |pieces| > 2 {
        ghost var reset := Value();
        var props := Split(pieces[2], ";");
        var i: nat := 0;
        while i < |props|
          invariant i <= |props| && Value() == WithProperties(reset, props[..i], supported)
        {
          SetProperty(props[i]);
          assert props[..i + 1][..i] == props[..i];
          i := i + 1;
        }
        assert props[..i] == props;
      }
      state := StateOf(pieces[0]);
    }
  }

  // ---------- the banner ----------

  /** What a device tells about itself; a host tells nothing. */
  datatype Product = Product(name: string, model: string, device: string)

  function Pair(key: string, value: string): string { Join([key, value], '=') }

  function Properties(product: Option<Product>, features: seq<string>): seq<string> {
    (if product.None? then []
     else [Pair(NAME_KEY, product.value.name), Pair(MODEL_KEY, product.value.model),
           Pair(DEVICE_KEY, product.value.device)])
      + [Pair(FEATURES_KEY, FeatureSetToString(features))]
  }

  /** `get_connection_string`. */
  function ConnectionString(kind: string, product: Option<Product>, features: seq<string>): string {
    kind + "::" + Join(Properties(product, features), ';')
  }

  /** Without the characters that have a meaning in a banner. */
  ghost predicate Clean(s: string) { Free(s, ':') && Free(s, ';') && Free(s, '=') && Free(s, ',') }

  ghost predicate CleanProduct(p: Product) { Clean(p.name) && Clean(p.model) && Clean(p.device) }

  ghost predicate CleanFeatures(features: seq<string>) { forall i :: 0 <= i < |features| ==> Clean(features[i]) }

  lemma KeysClean()
    ensures Clean(NAME_KEY) && Clean(MODEL_KEY) && Clean(DEVICE_KEY) && Clean(FEATURES_KEY)
    ensures |NAME_KEY| == 15 && |MODEL_KEY| == 16 && |DEVICE_KEY| == 17 && |FEATURES_KEY| == 8
  {
    NameKeyClean();
    ModelKeyClean();
    DeviceKeyClean();
  }

  lemma NameKeyClean()
    ensures Clean(NAME_KEY)
  {
  }

  lemma ModelKeyClean()
    ensures Clean(MODEL_KEY)
  {
  }

  lemma DeviceKeyClean()
    ensures Clean(DEVICE_KEY)
  {
  }

  lemma PairReads(p: Peer, key: string, value: string, supported: seq<string>)
    requires Free(key, '=') && Free(value, '=')
    ensures WithProperty(p, Pair(key, value), supported) == WithValue(p, key, value, supported)
  {
    SplitsBack([key, value], '=');
    assert Pair(key, value) == key + ['='] + value by { assert [key, value][1..] == [value]; }
    assert Pair(key, value) != "" by { assert |key + ['='] + value| > 0; }
  }

  /** The pair of a clean key and value has neither colons nor semicolons. */
  lemma PairClean(key: string, value: string, d: char)
    requires Free(key, d) && Free(value, d) && d != '='
    ensures Free(Pair(key, value), d)
  {
    JoinFree([key, value], '=', d);
  }

  lemma FeatureTextClean(features: seq<string>, d: char)
    requires CleanFeatures(features) && (d == ':' || d == ';' || d == '=')
    ensures Free(FeatureSetToString(features), d)
  {
    JoinFree(features, ',', d);
  }

  lemma PropertiesClean(product: Option<Product>, features: seq<string>, d: char)
    requires CleanFeatures(features) && (product.Some? ==> CleanProduct(product.value)) && (d == ':' || d == ';')
    ensures AllFree(Properties(product, features), d)
  {
    KeysClean();
    FeatureTextClean(features, d);
    PairClean(FEATURES_KEY, FeatureSetToString(features), d);
    if product.Some? {
      PairClean(NAME_KEY, product.value.name, d);
      PairClean(MODEL_KEY, product.value.model, d);
      PairClean(DEVICE_KEY, product.value.device, d);
    }
  }

  lemma PushProperty(p: Peer, props: seq<string>, prop: string, supported: seq<string>)
    ensures WithProperties(p, props + [prop], supported)
         == WithProperty(WithProperties(p, props, supported), prop, supported)
  {
    assert (props + [prop])[..|props|] == props;
  }

  /** The three product properties of a device. */
  lemma ProductReads(p: Peer, product: Product, supported: seq<string>)
    requires CleanProduct(product)
    ensures WithProperties(p, [Pair(NAME_KEY, product.name), Pair(MODEL_KEY, product.model),
                               Pair(DEVICE_KEY, product.device)], supported)
         == p.(product := product.name, model := product.model, device := product.device)
  {
    var a, b, c := Pair(NAME_KEY, product.name), Pair(MODEL_KEY, product.model), Pair(DEVICE_KEY, product.device);
    KeysClean();
    PushProperty(p, [], a, supported);
    PushProperty(p, [a], b, supported);
    PushProperty(p, [a, b], c, supported);
    assert [] + [a] == [a] && [a] + [b] == [a, b] && [a, b] + [c] == [a, b, c];
    var p1 := WithValue(p, NAME_KEY, product.name, supported);
    var p2 := WithValue(p1, MODEL_KEY, product.model, supported);
    PairReads(p, NAME_KEY, product.name, supported);
    PairReads(p1, MODEL_KEY, product.model, supported);
    PairReads(p2, DEVICE_KEY, product.device, supported);
  }

  /** What the properties of a clean banner tell. */
  function Told(p: Peer, product: Option<Product>, features: seq<string>, supported: seq<string>): Peer {
    var q := if product.None? then p
      else p.(product := product.value.name, model := product.value.model, device := product.value.device);
    WithFeatures(q, FeatureSetToString(features), supported)
  }

  lemma PropertiesRead(p: Peer, product: Option<Product>, features: seq<string>, supported: seq<string>)
    requires CleanFeatures(features) && (product.Some? ==> CleanProduct(product.value))
    ensures WithProperties(p, Properties(product, features), supported) == Told(p, product, features, supported)
  {
    KeysClean();
    var last := Pair(FEATURES_KEY, FeatureSetToString(features));
    FeatureTextClean(features, '=');
    if product.None? {
      PushProperty(p, [], last, supported);
      PairReads(p, FEATURES_KEY, FeatureSetToString(features), supported);
    } else {
      var x := product.value;
      var front := [Pair(NAME_KEY, x.name), Pair(MODEL_KEY, x.model), Pair(DEVICE_KEY, x.device)];
      PushProperty(p, front, last, supported);
      ProductReads(p, x, supported);
      PairReads(p.(product := x.name, model := x.model, device := x.device),
                FEATURES_KEY, FeatureSetToString(features), supported);
    }
  }

  /** The banner is three pieces between colons. */
  lemma BannerPieces(kind: string, rest: string)
    requires Free(kind, ':') && Free(rest, ':')
    ensures SplitFrom(kind + "::" + rest, ':', 0) == [kind, "", rest]
  {
    var pieces := [kind, "", rest];
    assert pieces[1..] == ["", rest] && pieces[1..][1..] == [rest];
    assert Join(["", rest], ':') == "" + [':'] + rest;
    assert Join(pieces, ':') == kind + [':'] + ("" + [':'] + rest);
    assert kind + "::" + rest == Join(pieces, ':');
    SplitsBack(pieces, ':');
  }

  /** Parsing the banner of a peer yields what the peer put in. */
  lemma BannerReads(p: Peer, kind: string, product: Option<Product>, features: seq<string>, supported: seq<string>)
    requires Free(kind, ':') && CleanFeatures(features) && (product.Some? ==> CleanProduct(product.value))
    ensures ParsedBanner(p, ConnectionString(kind, product, features), supported)
         == Told(WithFeatures(p, "", supported), product, features, supported).(state := StateOf(kind))
  {
    var props := Properties(product, features);
    var rest := Join(props, ';');
    PropertiesClean(product, features, ':');
    JoinFree(props, ';', ':');
    BannerPieces(kind, rest);
    PropertiesClean(product, features, ';');
    SplitsBack(props, ';');
    PropertiesRead(WithFeatures(p, "", supported), product, features, supported);
  }

  /** The word with which an end announces its state. */
  function KindOf(state: ConnectionState): string {
    match state
    case Bootloader => "bootloader"
    case Device => "device"
    case Recovery => "recovery"
    case Sideload => "sideload"
    case Rescue => "rescue"
    case Host => "host"
  }

  /** A banner tells the state that was announced; a word that announces no other state means a host. */
  lemma BannerState(p: Peer, kind: string, product: Option<Product>, features: seq<string>, supported: seq<string>,
                    state: ConnectionState)
    requires Free(kind, ':') && CleanFeatures(features) && (product.Some? ==> CleanProduct(product.value))
    ensures var told := ParsedBanner(p, ConnectionString(kind, product, features), supported).state;
      && (kind == KindOf(state) ==> told == state)
      && (told == state && state != Host ==> kind == KindOf(state))
  {
    BannerReads(p, kind, product, features, supported);
    KindExact(kind, state);
  }

  lemma KindExact(kind: string, state: ConnectionState)
    ensures kind == KindOf(state) ==> StateOf(kind) == state
    ensures StateOf(kind) == state && state != Host ==> kind == KindOf(state)
  {
  }

  /** The properties in the banner of a device and of a host, character for character. */
  lemma BannerText(kind: string, product: Product, features: seq<string>)
    ensures ConnectionString(kind, Some(product), features)
         == kind + "::" + Join(["ro.product.name=" + product.name, "ro.product.model=" + product.model,
                                "ro.product.device=" + product.device, "features=" + Join(features, ',')], ';')
    ensures ConnectionString(kind, None, features) == kind + "::" + Join(["features=" + Join(features, ',')], ';')
  {
    PairText(NAME_KEY, product.name, "ro.product.name=");
    PairText(MODEL_KEY, product.model, "ro.product.model=");
    PairText(DEVICE_KEY, product.device, "ro.product.device=");
    PairText(FEATURES_KEY, Join(features, ','), "features=");
    assert Properties(Some(product), features)
        == ["ro.product.name=" + product.name, "ro.product.model=" + product.model,
            "ro.product.device=" + product.device, "features=" + Join(features, ',')];
  }

  lemma PairText(key: string, value: string, text: string)
    requires key + "=" == text
    ensures Pair(key, value) == text + value
  {
    JoinFirst(key, [value], '=');
    assert [key] + [value] == [key, value] && ['='] == "=";
  }

  /** A property without an equals sign, or with more than one, is ignored. */
  lemma OddProperty(p: Peer, parts: seq<string>, supported: seq<string>)
    requires AllFree(parts, '=') && |parts| != 2
    ensures WithProperty(p, Join(parts, '='), supported) == p
  {
    if parts != [] {
      SplitsBack(parts, '=');
    }
  }

  /** The first piece of any banner is the state, the third the properties; others are ignored. */
  lemma AnyBanner(p: Peer, pieces: seq<string>, supported: seq<string>)
    requires AllFree(pieces, ':') && pieces != []
    ensures var reset := p.(features := [], delayedAck := false);
      ParsedBanner(p, Join(pieces, ':'), supported)
      == (if |pieces| <= 2 then reset else WithProperties(reset, SplitFrom(pieces[2], ';', 0), supported))
         .(state := StateOf(pieces[0]))
  {
    SplitsBack(pieces, ':');
  }

  // ---------- both ends ----------

  /** One end of a connection: what it puts into its banner. */
  datatype End = End(kind: string, product: Option<Product>, supported: seq<string>)

  ghost predicate CleanEnd(e: End) {
    Free(e.kind, ':') && CleanFeatures(e.supported) && (e.product.Some? ==> CleanProduct(e.product.value))
  }

  /** What `mine` knows after it has parsed the banner of `theirs`. */
  function Learned(mine: End, theirs: End, before: Peer): Peer {
    ParsedBanner(before, ConnectionString(theirs.kind, theirs.product, theirs.supported), mine.supported)
  }

  /** An end learns exactly the features of the other, in their order. */
  lemma LearnsFeatures(mine: End, theirs: End, before: Peer)
    requires CleanEnd(theirs)
    ensures Learned(mine, theirs, before).features == theirs.supported <==> theirs.supported != [""]
    ensures Learned(mine, theirs, before).delayedAck <==>
      "delayed_ack" in mine.supported && "delayed_ack" in theirs.supported
  {
    BannerReads(before, theirs.kind, theirs.product, theirs.supported, mine.supported);
    forall i | 0 <= i < |theirs.supported|
      ensures Free(theirs.supported[i], ',')
    {
      assert Clean(theirs.supported[i]);
    }
    FeaturesReadBack(theirs.supported);
    if theirs.supported == [""] {
      assert DELAYED_ACK !in theirs.supported;
    }
  }

  /** Both ends use delayed acks, or neither does; they do if and only if both offer it. */
  lemma BothAgree(a: End, b: End, beforeA: Peer, beforeB: Peer)
    requires CleanEnd(a) && CleanEnd(b)
    ensures Learned(a, b, beforeA).delayedAck == Learned(b, a, beforeB).delayedAck
    ensures Learned(a, b, beforeA).delayedAck <==> "delayed_ack" in a.supported && "delayed_ack" in b.supported
  {
    LearnsFeatures(a, b, beforeA);
    LearnsFeatures(b, a, beforeB);
  }
}
