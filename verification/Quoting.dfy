/** Quotation marks, as both splitters of command lines follow them */
module Quoting {

  datatype Quote = NoQuote | Single | Double

  /** The quoting state after a character */
  function Next(quote: Quote, c: char): Quote {
    if c == '\'' && !quote.Double? then (if quote.Single? then NoQuote else Single)
    else if c == '"' && !quote.Single? then (if quote.Double? then NoQuote else Double)
    else quote
  }
}
