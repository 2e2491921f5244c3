/** The HTTP errors the upload endpoint raises, with their status codes and
    messages. */
module Errors {
  import Decimal

  datatype UploadError =
    | InvalidDataUrl
    | MimeNotAllowed(mime: string)
    | InvalidBase64
    | PayloadTooLarge(limitMb: nat)
    | InvalidRegistro
    | InvalidPonto
  {
    /** The status code of the `HTTPException`: 413 for an oversized
        payload, 400 for every other rejection. */
    function Status(): (code: int)
      ensures code == 400 || code == 413
      ensures code == 413 <==> PayloadTooLarge?
    {
      if PayloadTooLarge? then 413 else 400
    }

    /** The `detail` text of the `HTTPException`; a disallowed MIME type is
        named at its end. */
    function Detail(): (s: string)
      ensures MimeNotAllowed? ==> |s| >= |mime| && s[|s| - |mime|..] == mime
    {
      match this
      case InvalidDataUrl => "data_url inválido"
      case MimeNotAllowed(m) => "MIME não permitido: " + m
      case InvalidBase64 => "base64 inválido"
      case PayloadTooLarge(mb) => "Arquivo > " + Decimal.NatToString(mb) + "MB"
      case InvalidRegistro => "registro inválido"
      case InvalidPonto => "ponto inválido"
    }
  }
}
