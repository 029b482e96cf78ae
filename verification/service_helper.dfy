/** Maximis.Toolkit.Xrm/ServiceHelper.cs: the service address and timeout
    used to connect to a CRM organization or deployment service. The
    credentials, the proxies themselves and the network calls are not part
    of this model; the connection settings are a plain record. */
module ServiceHelper {
  import opened Wrappers
  import opened Text

  /** The SDK's AuthenticationProviderType; `NoProvider` is its `None`. */
  datatype AuthenticationProviderType = NoProvider | ActiveDirectory | Federation | LiveId | OnlineFederation

  datatype ServiceType = Organization | Deployment

  /** The connection settings BuildUrl and the proxy factory read. */
  datatype Connection = Connection(
    Secure: bool,
    HostName: string,
    Port: int,
    Organization: string,
    AuthenticationProviderType: AuthenticationProviderType,
    TimeoutSeconds: int)

  const OrganizationPath := "/XRMServices/2011/Organization.svc"
  const DeploymentPath := "/XRMDeployment/2011/Deployment.svc"
  /** TimeSpan.FromMinutes(10), in seconds. */
  const DefaultTimeoutSeconds := 600
  /** The error GetOrganizationServiceProxy throws for a LiveId connection. */
  const LiveIdNotSupported := "NotImplementedException: LiveId is not supported."

  // ------------------------------------------------------------ Specification

  function Scheme(secure: bool): string {
    if secure then "https://" else "http://"
  }

  /** ":{Port}" for a positive port, nothing otherwise. */
  function PortPart(port: int): string {
    if port > 0 then ":" + NatToString(port) else ""
  }

  /** The path after the host and port. */
  function ServicePath(connection: Connection, serviceType: ServiceType): string {
    match serviceType
    case Organization =>
      (if connection.AuthenticationProviderType == ActiveDirectory then "/" + connection.Organization else "") + OrganizationPath
    case Deployment => DeploymentPath
  }

  function Url(connection: Connection, serviceType: ServiceType): string {
    Scheme(connection.Secure) + connection.HostName + PortPart(connection.Port) + ServicePath(connection, serviceType)
  }

  // ---------------------------------------------------------------- BuildUrl

  /** BuildUrl: appends the parts of the address one after the other. */
  method BuildUrl(connection: Connection, serviceType: ServiceType) returns (url: string)
    ensures url == Url(connection, serviceType)
  {
    url := if connection.Secure then "https://" else "http://";
    url := url + connection.HostName;
    if connection.Port > 0 {
      Associativity3(url, ":", NatToString(connection.Port));
      url := url + ":" + NatToString(connection.Port);
    }
    ghost var authority := url;
    assert authority == Scheme(connection.Secure) + connection.HostName + PortPart(connection.Port);
    if serviceType == Organization {
      if connection.AuthenticationProviderType == ActiveDirectory {
        Associativity3(authority, "/", connection.Organization);
        url := url + "/" + connection.Organization;
        Associativity3(authority, "/" + connection.Organization, OrganizationPath);
      } else {
        assert ServicePath(connection, serviceType) == OrganizationPath;
      }
      url := url + OrganizationPath;
    } else {
      assert ServicePath(connection, serviceType) == DeploymentPath;
      url := url + DeploymentPath;
    }
  }

  /** The timeout of an organization proxy, in seconds. */
  function Timeout(connection: Connection): (seconds: int)
    ensures seconds > 0
    ensures connection.TimeoutSeconds > 0 ==> seconds == connection.TimeoutSeconds
    ensures connection.TimeoutSeconds <= 0 ==> seconds == DefaultTimeoutSeconds
  {
    if connection.TimeoutSeconds > 0 then connection.TimeoutSeconds else DefaultTimeoutSeconds
  }

  /** What an OrganizationServiceProxy is created with. */
  datatype ProxySettings = ProxySettings(Uri: string, TimeoutSeconds: int)

  /** GetOrganizationServiceProxy without the credentials: LiveId is refused,
      any other provider gets the organization address and the timeout. */
  method GetOrganizationServiceProxy(connection: Connection) returns (r: Result<ProxySettings>)
    ensures r.Failure? <==> connection.AuthenticationProviderType == LiveId
    ensures r.Failure? ==> r.error == LiveIdNotSupported
    ensures r.Success? ==> r.value.Uri == Url(connection, Organization) && r.value.TimeoutSeconds == Timeout(connection)
  {
    if connection.AuthenticationProviderType == LiveId {
      return Failure(LiveIdNotSupported);
    }
    var serviceUrl := BuildUrl(connection, Organization);
    var timeout := if connection.TimeoutSeconds > 0 then connection.TimeoutSeconds else 600;
    return Success(ProxySettings(serviceUrl, timeout));
  }

  /** GetDeploymentServiceClient without the credentials: the deployment
      address and a ten-minute send timeout. */
  method GetDeploymentServiceClient(connection: Connection) returns (client: ProxySettings)
    ensures client.Uri == Url(connection, Deployment)
    ensures client.TimeoutSeconds == DefaultTimeoutSeconds
  {
    var serviceUrl := BuildUrl(connection, Deployment);
    client := ProxySettings(serviceUrl, 600);
  }

  // -------------------------------------------------------------- Properties

  /** The address starts with "https://" exactly when the connection is
      secure, and with "http://" otherwise. */
  lemma UrlScheme(connection: Connection, serviceType: ServiceType)
    ensures var u := Url(connection, serviceType);
      && (connection.Secure <==> |u| >= 8 && u[..8] == "https://")
      && (!connection.Secure ==> u[..7] == "http://")
  {
    Associativity(Scheme(connection.Secure), connection.HostName, PortPart(connection.Port), ServicePath(connection, serviceType));
    SchemePrefix(connection.Secure, connection.HostName + PortPart(connection.Port) + ServicePath(connection, serviceType));
  }

  lemma SchemePrefix(secure: bool, rest: string)
    ensures var u := Scheme(secure) + rest;
      && (secure <==> |u| >= 8 && u[..8] == "https://")
      && (!secure ==> u[..7] == "http://")
  {
    var u := Scheme(secure) + rest;
    assert u[..|Scheme(secure)|] == Scheme(secure);
    if !secure && |u| >= 8 {
      assert u[..8][4] == u[4] == ':';
    }
  }

  /** With a host free of ':' and '/', the address splits back into its
      parts: the authority up to the first '/' is the host followed by a
      ':' and the port exactly when the port is positive, and the rest is
      the service path. */
  lemma UrlAuthority(connection: Connection, serviceType: ServiceType)
    requires ':' !in connection.HostName && '/' !in connection.HostName
    ensures var rest := Url(connection, serviceType)[|Scheme(connection.Secure)|..];
      var k := IndexOf(rest, '/');
      && k >= 0
      && rest[..k] == connection.HostName + PortPart(connection.Port)
      && (':' in rest[..k] <==> connection.Port > 0)
      && (connection.Port > 0 ==> rest[..k][|connection.HostName| + 1..] == NatToString(connection.Port))
      && rest[k..] == ServicePath(connection, serviceType)
  {
    Associativity(Scheme(connection.Secure), connection.HostName, PortPart(connection.Port), ServicePath(connection, serviceType));
    ServicePathStartsWithSlash(connection, serviceType);
    AuthorityParts(connection.HostName, connection.Port, ServicePath(connection, serviceType));
  }

  lemma ServicePathStartsWithSlash(connection: Connection, serviceType: ServiceType)
    ensures ServicePath(connection, serviceType) != [] && ServicePath(connection, serviceType)[0] == '/'
  {
    if serviceType == Organization && connection.AuthenticationProviderType != ActiveDirectory {
      assert ServicePath(connection, serviceType) == OrganizationPath;
    }
  }

  /** `host`, the port part and a path starting with '/' split back apart at
      the first '/'. */
  lemma AuthorityParts(host: string, port: int, path: string)
    requires ':' !in host && '/' !in host && path != [] && path[0] == '/'
    ensures var rest := host + PortPart(port) + path;
      var k := IndexOf(rest, '/');
      && k >= 0
      && rest[..k] == host + PortPart(port)
      && (':' in rest[..k] <==> port > 0)
      && (port > 0 ==> rest[..k][|host| + 1..] == NatToString(port))
      && rest[k..] == path
  {
    PortPartShape(port);
    FirstSlash(host + PortPart(port), path);
    if port > 0 {
      var authority := host + PortPart(port);
      assert authority[|host|..] == PortPart(port);
      assert authority[|host|] == ':';
      assert authority[|host| + 1..] == PortPart(port)[1..] == NatToString(port);
    } else {
      assert host + PortPart(port) == host;
    }
  }

  /** The port part is empty or ':' followed by digits. */
  lemma PortPartShape(port: int)
    ensures '/' !in PortPart(port)
    ensures port > 0 ==> PortPart(port)[0] == ':' && ':' !in PortPart(port)[1..]
  {
    if port > 0 {
      var digits := NatToString(port);
      assert PortPart(port)[1..] == digits;
      assert forall i :: 0 <= i < |digits| ==> digits[i] != '/' && digits[i] != ':';
    }
  }

  /** The first '/' of `front + path` is the head of `path` when `front`
      holds none. */
  lemma FirstSlash(front: string, path: string)
    requires '/' !in front && path != [] && path[0] == '/'
    ensures IndexOf(front + path, '/') == |front|
    ensures (front + path)[..|front|] == front && (front + path)[|front|..] == path
  {
    var s := front + path;
    assert s[..|front|] == front;
    assert forall i :: 0 <= i < |front| ==> s[i] == front[i];
  }

  /** An organization address ends with the organization service path, and
      carries the organization name in front of it exactly when the provider
      is Active Directory; a deployment address ends with the deployment
      service path. */
  lemma UrlServicePath(connection: Connection)
    ensures var u := Url(connection, Organization);
      && |u| >= |OrganizationPath| && u[|u| - |OrganizationPath|..] == OrganizationPath
      && (ServicePath(connection, Organization) == OrganizationPath <==> connection.AuthenticationProviderType != ActiveDirectory)
      && (connection.AuthenticationProviderType == ActiveDirectory ==>
            ServicePath(connection, Organization)[..|connection.Organization| + 1] == "/" + connection.Organization)
    ensures var u := Url(connection, Deployment);
      |u| >= |DeploymentPath| && u[|u| - |DeploymentPath|..] == DeploymentPath
  {
    var front := Scheme(connection.Secure) + connection.HostName + PortPart(connection.Port);
    if connection.AuthenticationProviderType == ActiveDirectory {
      var org := "/" + connection.Organization;
      Associativity3(front, org, OrganizationPath);
      EndsWith(front + org, OrganizationPath);
      assert (org + OrganizationPath)[..|org|] == org;
      assert |org + OrganizationPath| > |OrganizationPath|;
    } else {
      assert ServicePath(connection, Organization) == OrganizationPath;
      EndsWith(front, OrganizationPath);
    }
    EndsWith(front, DeploymentPath);
  }

  lemma EndsWith(front: string, back: string)
    ensures |front + back| >= |back| && (front + back)[|front + back| - |back|..] == back
  {
  }
}
