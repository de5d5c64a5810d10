/** The literal strings of the builder's rendering test, put together from their pieces. */
module TestLiterals {
  lemma DefaultSrcLine()
    ensures "default-src" + " " + "'self'" + " " + "https://www.tom.be" == "default-src 'self' https://www.tom.be"
  {
  }

  lemma ScriptSrcLine()
    ensures "script-src" + " " + "'unsafe-inline'" == "script-src 'unsafe-inline'"
  {
  }

  lemma SandboxLine()
    ensures "sandbox" + " " + "allow-popups" == "sandbox allow-popups"
  {
  }

  lemma ReportToLine()
    ensures "report-to" + " " + "my-endpoint" == "report-to my-endpoint"
  {
  }
}
