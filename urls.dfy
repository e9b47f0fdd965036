/** The parts of a URL the fetcher and the connection pool read. Parsing a
    URL from text is not part of this model. */
module Urls {

  /** A URL: protocol ("http", ...), host, port (0 when the URL names
      none) and path. */
  datatype Url = Url(protocol: string, host: string, port: nat, path: string)
}
