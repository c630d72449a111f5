/** The address lookup `obter_endereco_por_cep`: one request to the ViaCEP
    service for an already normalised code. The HTTP exchange itself (the
    URL, the 5-second timeout, the status check and the JSON decoding) is a
    parameter of the model: a `Service` says, for each code, whether the
    exchange failed or which JSON object came back. */
module Lookup {

  datatype Option<+T> = None | Some(value: T)

  /** A decoded JSON object of the service, key to text value. */
  type Response = map<string, string>

  /** What one request can give: a transport, status or decoding failure
      (any `requests.RequestException`), or the decoded body. */
  datatype Reply = Failure | Body(json: Response)

  /** The address service, as seen from this program. */
  type Service = string -> Reply

  /** The key by which the service flags a code it does not know. */
  const ErrorKey: string := "erro"

  /** The lookup gives no address when the request fails or when the body
      carries the error key; otherwise it gives the body unchanged. */
  function FetchAddress(service: Service, cep: string): (r: Option<Response>)
    ensures r.None? <==> service(cep).Failure? || ErrorKey in service(cep).json
    ensures r.Some? ==> service(cep) == Body(r.value)
  {
    match service(cep)
    case Failure => None
    case Body(json) => if ErrorKey in json then None else Some(json)
  }

  /** Python truthiness of the lookup's result, as tested by `if endereco:`:
      `None` and the empty dictionary are both false. */
  predicate Truthy(r: Option<Response>)
  {
    r.Some? && r.value != map[]
  }

  /** The lookup counts as a hit exactly when the service answered with a
      non-empty body that has no error key. */
  lemma TruthyLookup(service: Service, cep: string)
    ensures Truthy(FetchAddress(service, cep)) <==>
      service(cep).Body? && ErrorKey !in service(cep).json && service(cep).json != map[]
  {
  }
}
