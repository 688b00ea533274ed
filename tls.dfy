/**
 * com.exasol.bucketfs.http.SubjectAltName: an extra Subject Alternative Name to allow,
 * with the GeneralName tags of RFC 5280, section 4.2.1.6 (dNSName [2], iPAddress [7]).
 */
module SubjectAltName {

  import opened JavaString

  datatype Type = HOSTNAME | IP {

    /** getCode(): the GeneralName tag X509Certificate.getSubjectAlternativeNames reports. */
    function GetCode(): (code: int)
      ensures code == (if this == HOSTNAME then 2 else 7)
    {
      match this
      case HOSTNAME => 2
      case IP => 7
    }

    /** Enum.toString(): the constant's name. */
    function Name(): string {
      match this
      case HOSTNAME => "HOSTNAME"
      case IP => "IP"
    }
  }

  /** The two types report different tags. */
  lemma CodesDistinct(a: Type, b: Type)
    requires a.GetCode() == b.GetCode()
    ensures a == b
  {
  }

  const TO_STRING_PREFIX := "X509SubjectAltName [type="
  const TO_STRING_VALUE := ", value="

  datatype SubjectAltName = SubjectAltName(nameType: Type, value: string) {

    function GetType(): Type { nameType }

    function GetValue(): string { value }

    /** toString(): "X509SubjectAltName [type=<TYPE>, value=<value>]". */
    function ToString(): (s: string)
      ensures var n := |TO_STRING_PREFIX| + |nameType.Name()|;
        |s| == n + |TO_STRING_VALUE| + |value| + 1
        && s[..|TO_STRING_PREFIX|] == TO_STRING_PREFIX
        && s[|TO_STRING_PREFIX|..n] == nameType.Name()
        && s[n..n + |TO_STRING_VALUE|] == TO_STRING_VALUE
        && s[n + |TO_STRING_VALUE|..|s| - 1] == value
        && s[|s| - 1] == ']'
    {
      TO_STRING_PREFIX + nameType.Name() + TO_STRING_VALUE + value + "]"
    }
  }

  /** The rendering tells every name apart: type and value can be read back. */
  lemma ToStringInjective(a: SubjectAltName, b: SubjectAltName)
    requires a.ToString() == b.ToString()
    ensures a == b
  {
    var s := a.ToString();
    var p := |TO_STRING_PREFIX|;
    // The character after the prefix's first letter of the type tells the types apart.
    assert s[p + 1] == a.nameType.Name()[1] == b.nameType.Name()[1];
    assert a.nameType == b.nameType;
  }
}

/**
 * com.exasol.bucketfs.http.FixedSANCertificate: a certificate that answers every query
 * from a delegate, except that it adds names to the delegate's Subject Alternative Names.
 * A certificate is an opaque value: its encoded form stands for everything the other
 * accessors report.
 */
module FixedSANCertificate {

  import opened Wrappers
  import opened SubjectAltName

  /** One element of a SAN entry: the tag (an Integer) or the name (an Object). */
  datatype SanValue = Tag(code: int) | Value(text: string)

  /** One entry of getSubjectAlternativeNames(): a list of values. */
  type SanEntry = seq<SanValue>

  /** The entry FixedSANCertificate adds for a name: its tag, then its value. */
  function EntryOf(altName: SubjectAltName): SanEntry {
    [Tag(altName.GetType().GetCode()), Value(altName.GetValue())]
  }

  datatype Certificate =
    | X509(encoded: nat, subjectAlternativeNames: Option<seq<SanEntry>>)
    | FixedSAN(delegate: Certificate, altNames: seq<SubjectAltName>)
  {
    /** getSubjectAlternativeNames(): the delegate's names (null read as none), then one entry per added name. */
    function GetSubjectAlternativeNames(): (r: Option<seq<SanEntry>>)
      ensures X509? ==> r == subjectAlternativeNames
      ensures FixedSAN? ==>
        var existing := match delegate.GetSubjectAlternativeNames() case None => [] case Some(names) => names;
        r.Some? && |r.value| == |existing| + |altNames|
        && r.value[..|existing|] == existing
        && forall i :: 0 <= i < |altNames| ==> r.value[|existing| + i] == EntryOf(altNames[i])
    {
      match this
      case X509(_, names) => names
      case FixedSAN(d, added) =>
        var existing := match d.GetSubjectAlternativeNames() case None => [] case Some(names) => names;
        Some(existing + Added(added))
    }

    /** getEncoded() and every other accessor the wrapper hands on to its delegate. */
    function GetEncoded(): (e: nat)
      ensures FixedSAN? ==> e == delegate.GetEncoded()
    {
      match this
      case X509(encoded, _) => encoded
      case FixedSAN(d, _) => d.GetEncoded()
    }

    /** equals(other): X509Certificate compares encoded forms; the wrapper asks its delegate. */
    predicate Equals(other: Certificate)
    {
      match this
      case X509(encoded, _) => encoded == other.GetEncoded()
      case FixedSAN(d, _) => d.Equals(other)
    }

    /** hashCode(): derived from the encoded form; the wrapper asks its delegate. */
    function HashCode(): int
    {
      match this
      case X509(encoded, _) => encoded
      case FixedSAN(d, _) => d.HashCode()
    }
  }

  /** The entries of the added names, in order. */
  function Added(altNames: seq<SubjectAltName>): (r: seq<SanEntry>)
    ensures |r| == |altNames|
    ensures forall i :: 0 <= i < |altNames| ==> r[i] == EntryOf(altNames[i])
  {
    if altNames == [] then [] else [EntryOf(altNames[0])] + Added(altNames[1..])
  }

  /** Every certificate compares, and hashes, by its encoded form. */
  lemma {:induction false} EqualsByEncoding(c: Certificate, other: Certificate)
    ensures c.Equals(other) <==> c.GetEncoded() == other.GetEncoded()
    ensures c.HashCode() == c.GetEncoded()
  {
    match c
    case X509(_, _) =>
    case FixedSAN(d, _) => EqualsByEncoding(d, other);
  }

  /**
   * A wrapper equals its delegate in both directions and hashes like it, so it can stand
   * in for the delegate in a hash-based collection.
   */
  lemma FixedEqualsDelegate(delegate: Certificate, altNames: seq<SubjectAltName>)
    ensures FixedSAN(delegate, altNames).Equals(delegate) && delegate.Equals(FixedSAN(delegate, altNames))
    ensures FixedSAN(delegate, altNames).HashCode() == delegate.HashCode()
  {
    EqualsByEncoding(delegate, delegate);
    EqualsByEncoding(delegate, FixedSAN(delegate, altNames));
  }

  /** With no added names, the delegate's names come back as they are (null as none). */
  lemma NoAddedNames(delegate: Certificate)
    ensures var existing := match delegate.GetSubjectAlternativeNames() case None => [] case Some(names) => names;
      FixedSAN(delegate, []).GetSubjectAlternativeNames() == Some(existing)
  {
    var existing := match delegate.GetSubjectAlternativeNames() case None => [] case Some(names) => names;
    assert existing + Added([]) == existing;
  }

  /**
   * The unit test: a delegate with the entry ["a", "b"] and the names host (HOSTNAME) and
   * ipAddr (IP) gives ["a", "b"], [2, "host"], [7, "ipAddr"].
   */
  lemma HostAndIpAdded(encoded: nat)
    ensures var delegate := X509(encoded, Some([[Value("a"), Value("b")]]));
      var cert := FixedSAN(delegate, [SubjectAltName(HOSTNAME, "host"), SubjectAltName(IP, "ipAddr")]);
      cert.GetSubjectAlternativeNames()
      == Some([[Value("a"), Value("b")], [Tag(2), Value("host")], [Tag(7), Value("ipAddr")]])
  {
    var names := [SubjectAltName(HOSTNAME, "host"), SubjectAltName(IP, "ipAddr")];
    var added := [[Tag(2), Value("host")], [Tag(7), Value("ipAddr")]];
    assert Added(names) == added;
    assert [[Value("a"), Value("b")]] + added
        == [[Value("a"), Value("b")], [Tag(2), Value("host")], [Tag(7), Value("ipAddr")]];
  }
}

/**
 * com.exasol.bucketfs.http.SubjectAltNameTrustManager: a trust manager that lets a server
 * certificate also be valid for extra names, by handing its delegate a chain whose first
 * certificate carries them. Trust managers are opaque values.
 */
module SubjectAltNameTrustManager {

  import opened Wrappers
  import opened BucketErrors
  import opened SubjectAltName
  import opened FixedSANCertificate

  /** The endpoint that comes with a check, if any. */
  datatype Endpoint = NoEndpoint | Socket(socketId: nat) | Engine(engineId: nat)

  datatype TrustManager =
    | X509Extended(className: string, acceptedIssuers: seq<Certificate>) // a JDK X509ExtendedTrustManager
    | Generic(className: string)                                         // any other TrustManager type
    | Dummy                                                              // DummyTrustManager
    | Wrapped(wrapper: SubjectAltNameTrustManager)
  {
    /** instanceof X509ExtendedTrustManager */
    predicate IsX509Extended() {
      !Generic?
    }

    function ClassName(): string {
      match this
      case X509Extended(name, _) => name
      case Generic(name) => name
      case Dummy => "com.exasol.bucketfs.http.DummyTrustManager"
      case Wrapped(_) => "com.exasol.bucketfs.http.SubjectAltNameTrustManager"
    }
  }

  /** The check a trust manager hands on to its delegate, with the chain as forwarded. */
  datatype Check = ServerCheck(chain: array?<Certificate>, authType: string, endpoint: Endpoint)
                 | ClientCheck(chain: array?<Certificate>, authType: string, endpoint: Endpoint)

  /** wrap(delegate, altNames): no names, the delegate itself; otherwise a wrapper, for X509 extended managers only. */
  function Wrap(delegate: TrustManager, altNames: seq<SubjectAltName>): (r: Result<TrustManager, Throwable>)
    ensures altNames == [] ==> r == Ok(delegate)
    ensures altNames != [] && delegate.IsX509Extended() ==>
      r == Ok(Wrapped(SubjectAltNameTrustManager(delegate, altNames)))
    ensures altNames != [] && !delegate.IsX509Extended() ==>
      r == Err(IllegalArgumentException(Text("TrustManager of type " + delegate.ClassName() + " is not supported")))
    ensures r.Ok? && r.value.Wrapped? && altNames != [] ==>
      r.value.wrapper.Valid() && r.value.wrapper.delegate == delegate && r.value.wrapper.alternativeNames == altNames
  {
    if altNames == [] then Ok(delegate)
    else if delegate.IsX509Extended() then Ok(Wrapped(SubjectAltNameTrustManager(delegate, altNames)))
    else Err(IllegalArgumentException(Text("TrustManager of type " + delegate.ClassName() + " is not supported")))
  }

  /**
   * The chain its delegate sees: null or empty as is, otherwise the same certificates with
   * the first replaced by a FixedSANCertificate over it.
   */
  function WithAlternativeNames(chain: seq<Certificate>, altNames: seq<SubjectAltName>): (r: seq<Certificate>)
    ensures |r| == |chain|
    ensures chain != [] ==> r[0] == FixedSAN(chain[0], altNames) && r[1..] == chain[1..]
  {
    if chain == [] then [] else [FixedSAN(chain[0], altNames)] + chain[1..]
  }

  datatype SubjectAltNameTrustManager = SubjectAltNameTrustManager(delegate: TrustManager,
                                                                   alternativeNames: seq<SubjectAltName>)
  {
    /** What wrap guarantees of every wrapper it makes. */
    predicate Valid() {
      delegate.IsX509Extended() && alternativeNames != []
    }

    /**
     * replaceFirstCertificate: copies the chain into a new array of the same length and puts
     * the fixed certificate first; the caller's array is left alone.
     */
    static method ReplaceFirstCertificate(chain: array<Certificate>, fixedSANCertificate: Certificate)
      returns (result: array<Certificate>)
      requires chain.Length >= 1
      ensures fresh(result) && result.Length == chain.Length
      ensures result[0] == fixedSANCertificate && result[1..] == chain[1..]
    {
      result := new Certificate[chain.Length];
      for i := 0 to chain.Length
        invariant result[..i] == chain[..i]
      {
        result[i] := chain[i];
      }
      result[0] := fixedSANCertificate;
      assert result[1..] == chain[1..];
    }

    /** addAlternativeNames(chain): the chain checks hand on to the delegate. */
    method AddAlternativeNames(chain: array?<Certificate>) returns (result: array?<Certificate>)
      ensures chain == null || chain.Length < 1 ==> result == chain
      ensures chain != null && chain.Length >= 1 ==>
        fresh(result) && result != null && result[..] == WithAlternativeNames(chain[..], alternativeNames)
    {
      if chain == null || chain.Length < 1 {
        return chain;
      }
      var fixedSANCertificate := FixedSAN(chain[0], alternativeNames);
      result := ReplaceFirstCertificate(chain, fixedSANCertificate);
      assert result[..] == [result[0]] + result[1..];
    }

    /** checkServerTrusted (all three forms): the delegate checks the chain with the names added. */
    method CheckServerTrusted(chain: array?<Certificate>, authType: string, endpoint: Endpoint)
      returns (forwarded: Check)
      ensures forwarded.ServerCheck? && forwarded.authType == authType && forwarded.endpoint == endpoint
      ensures chain == null || chain.Length < 1 ==> forwarded.chain == chain
      ensures chain != null && chain.Length >= 1 ==>
        fresh(forwarded.chain) && forwarded.chain != null
        && forwarded.chain[..] == WithAlternativeNames(chain[..], alternativeNames)
    {
      var modified := AddAlternativeNames(chain);
      forwarded := ServerCheck(modified, authType, endpoint);
    }

    /** checkClientTrusted (all three forms): handed on untouched. */
    method CheckClientTrusted(chain: array?<Certificate>, authType: string, endpoint: Endpoint)
      returns (forwarded: Check)
      ensures forwarded == ClientCheck(chain, authType, endpoint)
    {
      forwarded := ClientCheck(chain, authType, endpoint);
    }

    /** getAcceptedIssuers(): the delegate's answer. */
    function GetAcceptedIssuers(): (issuers: seq<Certificate>)
      ensures delegate.X509Extended? ==> issuers == delegate.acceptedIssuers
    {
      AcceptedIssuers(delegate)
    }
  }

  /** getAcceptedIssuers() of any trust manager: a DummyTrustManager accepts none. */
  function AcceptedIssuers(m: TrustManager): seq<Certificate>
  {
    match m
    case X509Extended(_, issuers) => issuers
    case Generic(_) => []
    case Dummy => []
    case Wrapped(w) => AcceptedIssuers(w.delegate)
  }

  /** The first certificate the delegate sees reports the original names followed by the added ones. */
  lemma FirstCertificateGainsNames(chain: seq<Certificate>, altNames: seq<SubjectAltName>)
    requires chain != []
    ensures var names := WithAlternativeNames(chain, altNames)[0].GetSubjectAlternativeNames();
      var existing := match chain[0].GetSubjectAlternativeNames() case None => [] case Some(n) => n;
      names.Some? && names.value == existing + Added(altNames)
  {
    var names := WithAlternativeNames(chain, altNames)[0].GetSubjectAlternativeNames();
    var existing := match chain[0].GetSubjectAlternativeNames() case None => [] case Some(n) => n;
    assert names.value[..|existing|] == existing;
    assert names.value[|existing|..] == Added(altNames);
    assert names.value == names.value[..|existing|] + names.value[|existing|..];
  }
}

/**
 * com.exasol.bucketfs.http.HttpClientBuilder: collects the TLS settings, then decides which
 * trust managers the TLS context gets. The trust managers the JDK makes for a certificate
 * are an input.
 */
module HttpClientBuilder {

  import opened Wrappers
  import opened BucketErrors
  import opened SubjectAltName
  import opened FixedSANCertificate
  import opened SubjectAltNameTrustManager

  /** allowAlternativeNames(trustManagers): wraps each in turn; the first that cannot be wrapped throws. */
  function WrapAll(trustManagers: seq<TrustManager>, altNames: seq<SubjectAltName>)
    : (r: Result<seq<TrustManager>, Throwable>)
    ensures r.Ok? <==> forall i :: 0 <= i < |trustManagers| ==> Wrap(trustManagers[i], altNames).Ok?
    ensures r.Ok? ==>
      |r.value| == |trustManagers|
      && forall i :: 0 <= i < |trustManagers| ==> r.value[i] == Wrap(trustManagers[i], altNames).value
    ensures r.Err? ==>
      exists i :: 0 <= i < |trustManagers| && Wrap(trustManagers[i], altNames) == Err(r.error)
        && forall j :: 0 <= j < i ==> Wrap(trustManagers[j], altNames).Ok?
  {
    if trustManagers == [] then Ok([])
    else match Wrap(trustManagers[0], altNames)
      case Err(e) => Err(e)
      case Ok(m) =>
        match WrapAll(trustManagers[1..], altNames)
        case Err(e) =>
          ghost var i :| 0 <= i < |trustManagers[1..]| && Wrap(trustManagers[1..][i], altNames) == Err(e)
            && forall j :: 0 <= j < i ==> Wrap(trustManagers[1..][j], altNames).Ok?;
          assert Wrap(trustManagers[i + 1], altNames) == Err(e);
          Err(e)
        case Ok(rest) => Ok([m] + rest)
  }

  /** Without alternative names the certificate's trust managers are used as they are. */
  lemma NoNamesKeepsTrustManagers(trustManagers: seq<TrustManager>)
    ensures WrapAll(trustManagers, []) == Ok(trustManagers)
  {
    var r := WrapAll(trustManagers, []);
    assert r.Ok?;
    assert r.value == trustManagers;
  }

  /** With names, extended trust managers all become wrappers carrying exactly those names. */
  lemma NamesWrapEveryTrustManager(trustManagers: seq<TrustManager>, altNames: seq<SubjectAltName>)
    requires altNames != []
    requires forall i :: 0 <= i < |trustManagers| ==> trustManagers[i].IsX509Extended()
    ensures var r := WrapAll(trustManagers, altNames);
      r.Ok? && |r.value| == |trustManagers|
      && forall i :: 0 <= i < |trustManagers| ==>
        r.value[i] == Wrapped(SubjectAltNameTrustManager(trustManagers[i], altNames))
  {
  }

  /** The trust managers the TLS context is initialised with; None means the JVM's defaults. */
  type TrustManagers = Option<seq<TrustManager>>

  class HttpClientBuilder {
    var raiseTlsErrors: bool
    var certificate: Option<Certificate>
    var altNames: seq<SubjectAltName>

    /** Raise TLS errors, no certificate, no alternative names. */
    constructor ()
      ensures raiseTlsErrors && certificate == None && altNames == []
    {
      raiseTlsErrors := true;
      certificate := None;
      altNames := [];
    }

    method RaiseTlsErrors(raiseTlsErrors: bool) returns (self: HttpClientBuilder)
      modifies this
      ensures self == this && this.raiseTlsErrors == raiseTlsErrors
      ensures certificate == old(certificate) && altNames == old(altNames)
    {
      this.raiseTlsErrors := raiseTlsErrors;
      self := this;
    }

    method Certificate(certificate: Option<Certificate>) returns (self: HttpClientBuilder)
      modifies this
      ensures self == this && this.certificate == certificate
      ensures raiseTlsErrors == old(raiseTlsErrors) && altNames == old(altNames)
    {
      this.certificate := certificate;
      self := this;
    }

    method AllowAlternativeHostName(hostName: string) returns (self: HttpClientBuilder)
      modifies this
      ensures self == this && altNames == old(altNames) + [SubjectAltName(HOSTNAME, hostName)]
      ensures raiseTlsErrors == old(raiseTlsErrors) && certificate == old(certificate)
    {
      self := AllowAltName(SubjectAltName(HOSTNAME, hostName));
    }

    method AllowAlternativeIPAddress(ipAddress: string) returns (self: HttpClientBuilder)
      modifies this
      ensures self == this && altNames == old(altNames) + [SubjectAltName(IP, ipAddress)]
      ensures raiseTlsErrors == old(raiseTlsErrors) && certificate == old(certificate)
    {
      self := AllowAltName(SubjectAltName(IP, ipAddress));
    }

    method AllowAltName(altName: SubjectAltName) returns (self: HttpClientBuilder)
      modifies this
      ensures self == this && altNames == old(altNames) + [altName]
      ensures raiseTlsErrors == old(raiseTlsErrors) && certificate == old(certificate)
    {
      altNames := altNames + [altName];
      self := this;
    }

    /**
     * createTrustManagers: ignoring TLS errors and a certificate exclude each other
     * (E-BFSJ-27); ignoring errors means the dummy trust manager; a certificate means its
     * trust managers, each wrapped with the alternative names; otherwise the JVM defaults.
     */
    function CreateTrustManagers(certificateTrustManagers: seq<TrustManager>): (r: Result<TrustManagers, Throwable>)
      reads this
      ensures r == Err(IllegalStateException(Coded("E-BFSJ-27", []))) <==> !raiseTlsErrors && certificate.Some?
      ensures !raiseTlsErrors && certificate.None? ==> r == Ok(Some([Dummy]))
      ensures raiseTlsErrors && certificate.None? ==> r == Ok(None)
      ensures raiseTlsErrors && certificate.Some? ==>
        (r.Ok? <==> WrapAll(certificateTrustManagers, altNames).Ok?)
        && (r.Ok? ==> r.value.Some? && |r.value.value| == |certificateTrustManagers|)
        && r == (match WrapAll(certificateTrustManagers, altNames)
                 case Ok(wrapped) => Ok(Some(wrapped))
                 case Err(e) => Err(e))
    {
      if !raiseTlsErrors && certificate.Some? then Err(IllegalStateException(Coded("E-BFSJ-27", [])))
      else if !raiseTlsErrors then Ok(Some([Dummy]))
      else if certificate.Some? then
        match WrapAll(certificateTrustManagers, altNames)
        case Ok(wrapped) => Ok(Some(wrapped))
        case Err(e) => Err(e)
      else Ok(None)
    }
  }

  /** Certificates come with the JDK's own trust managers, which are all X509 extended ones. */
  lemma CertificateWithNames(builder: HttpClientBuilder, certificateTrustManagers: seq<TrustManager>)
    requires builder.raiseTlsErrors && builder.certificate.Some?
    requires forall i :: 0 <= i < |certificateTrustManagers| ==> certificateTrustManagers[i].IsX509Extended()
    ensures var r := builder.CreateTrustManagers(certificateTrustManagers);
      r.Ok? && r.value.Some? && |r.value.value| == |certificateTrustManagers|
      && forall i :: 0 <= i < |certificateTrustManagers| ==>
        r.value.value[i] == Wrap(certificateTrustManagers[i], builder.altNames).value
  {
  }
}
