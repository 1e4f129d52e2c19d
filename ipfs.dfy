/**
 * Resolution of the `ipfs://` URIs the marketplace stores as token and
 * image references into URLs of the Pinata HTTP gateway.
 */
module Ipfs {
  import opened Optional
  import opened JsString

  const IpfsScheme: string := "ipfs://"
  const PinataGateway: string := "https://gateway.pinata.cloud/ipfs/"

  /** The URI the upload helpers return for the content hash Pinata reports. */
  function UploadedUri(ipfsHash: string): (uri: string)
    ensures StartsWith(uri, IpfsScheme)
    ensures |uri| == |IpfsScheme| + |ipfsHash| && uri[|IpfsScheme|..] == ipfsHash
  {
    IpfsScheme + ipfsHash
  }

  /**
   * `ipfsToHTTP`: "" for an absent or empty URI; an `ipfs://` URI with its
   * scheme swapped for the gateway prefix; any other URI unchanged.
   */
  function IpfsToHttp(uri: Option<string>): (r: string)
    ensures r == "" <==> Falsy(uri)
    ensures !Falsy(uri) && StartsWith(uri.value, IpfsScheme) ==>
      r == PinataGateway + uri.value[|IpfsScheme|..]
    ensures !Falsy(uri) && !StartsWith(uri.value, IpfsScheme) ==> r == uri.value
  {
    if Falsy(uri) then ""
    else if StartsWith(uri.value, IpfsScheme) then Replace(uri.value, IpfsScheme, PinataGateway)
    else uri.value
  }

  /** The content identifier after the scheme is kept exactly. */
  lemma IpfsUriToGateway(cid: string)
    ensures IpfsToHttp(Some(IpfsScheme + cid)) == PinataGateway + cid
  {
  }

  /** No gateway URL starts with the `ipfs://` scheme. */
  lemma GatewayUrlIsNotIpfsUri(path: string)
    ensures !StartsWith(PinataGateway + path, IpfsScheme)
  {
    assert (PinataGateway + path)[0] == 'h' != IpfsScheme[0];
  }

  /** What `ipfsToHTTP` returns is never an `ipfs://` URI. */
  lemma ResolvedIsNotIpfsUri(uri: Option<string>)
    ensures !StartsWith(IpfsToHttp(uri), IpfsScheme)
  {
    if !Falsy(uri) && StartsWith(uri.value, IpfsScheme) {
      GatewayUrlIsNotIpfsUri(uri.value[|IpfsScheme|..]);
    }
  }

  /** Resolving an already resolved URI changes nothing. */
  lemma IpfsToHttpIdempotent(uri: Option<string>)
    ensures IpfsToHttp(Some(IpfsToHttp(uri))) == IpfsToHttp(uri)
  {
    ResolvedIsNotIpfsUri(uri);
  }

  /** A URI produced by an upload resolves to the gateway URL of the same hash. */
  lemma UploadedUriResolves(ipfsHash: string)
    ensures StartsWith(UploadedUri(ipfsHash), IpfsScheme)
    ensures IpfsToHttp(Some(UploadedUri(ipfsHash))) == PinataGateway + ipfsHash
  {
    IpfsUriToGateway(ipfsHash);
  }
}
