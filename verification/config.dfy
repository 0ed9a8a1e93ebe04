/** server.h: the constants the request handling and the accept loop depend on. */
module Config {
  /** ROOT: the document root; static files and uploads live under it. */
  const Root: string := "/home/margo/lab4/web-server"

  /** FIRST_PAGE: the document served for the uri "/". */
  const FirstPage: string := "/start.html"

  /** MAX: the number of entries in the connection slot table. */
  const Max: nat := 1000
}
