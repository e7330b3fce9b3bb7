/**
 The two contact-form submit handlers that turn the form into a WhatsApp
 deep link `https://wa.me/<number>?text=<encoded message>`: the one of
 IgarapeCafe.js and the one of index.js. Opening the link, the alert, the
 notification and the form reset become the returned outcome.
 */
module WhatsApp {
  import opened Options
  import opened Chars
  import opened UriComponent

  /** The fixed destination number, (24) 98880-5041 in E.164 digits. */
  const Number: string := "5524988805041"

  /** Everything before the encoded message. */
  const UrlPrefix: string := "https://wa.me/" + Number + "?text="

  /** What a submit leads to. */
  datatype Outcome =
    | OpenLink(url: string)                  // window.open(url, '_blank')
    | Alert(message: string)                 // alert(message)
    | Notify(message: string, kind: string)  // showNotification(message, kind)

  /** The deep link carrying `text`. */
  function LinkFor(text: string): (url: string)
    ensures |url| >= |UrlPrefix| && url[..|UrlPrefix|] == UrlPrefix
    ensures url[|UrlPrefix|..] == EncodeURIComponent(text)
    ensures WellFormed(url[|UrlPrefix|..])
  {
    EncodeWellFormed(text);
    assert (UrlPrefix + EncodeURIComponent(text))[|UrlPrefix|..] == EncodeURIComponent(text);
    UrlPrefix + EncodeURIComponent(text)
  }

  /** Reads the message back out of a deep link: the partner of `LinkFor`. */
  function MessageOf(url: string): Option<string> {
    if |url| >= |UrlPrefix| && url[..|UrlPrefix|] == UrlPrefix
    then DecodeURIComponent(url[|UrlPrefix|..])
    else None
  }

  /** The message of a deep link is recovered exactly. */
  lemma LinkRoundTrip(text: string)
    ensures MessageOf(LinkFor(text)) == Some(text)
  {
    UriComponent.DecodeEncode(text);
  }

  /** Distinct messages give distinct links. */
  lemma LinkInjective(a: string, b: string)
    requires LinkFor(a) == LinkFor(b)
    ensures a == b
  {
    LinkRoundTrip(a);
    LinkRoundTrip(b);
  }

  // ---------------------------------------------------------------------
  // IgarapeCafe.js: the contact form
  // ---------------------------------------------------------------------

  const CafeMissingFields: string := "Por favor, preencha todos os campos obrigatórios."

  /** The text template of IgarapeCafe.js: message type, blank line, bold name label, blank line, closing. */
  function CafeMessage(nome: string, mensagemTipo: string): string {
    mensagemTipo + "\n\n*Nome:* " + nome + "\n\nAguardo retorno!"
  }

  /** The submit handler of IgarapeCafe.js. The values are not trimmed: only
      an empty name or an unselected message type is refused. */
  function CafeSubmit(nome: string, mensagemTipo: string): (r: Outcome)
    ensures r.OpenLink? <==> nome != [] && mensagemTipo != []
    ensures !r.OpenLink? ==> r == Notify(CafeMissingFields, "error")
    ensures r.OpenLink? ==> r.url == UrlPrefix + EncodeURIComponent(CafeMessage(nome, mensagemTipo))
    ensures r.OpenLink? ==> WellFormed(r.url[|UrlPrefix|..])
    ensures r.OpenLink? ==> MessageOf(r.url) == Some(CafeMessage(nome, mensagemTipo))
  {
    if nome == [] || mensagemTipo == [] then Notify(CafeMissingFields, "error")
    else
      LinkRoundTrip(CafeMessage(nome, mensagemTipo));
      OpenLink(LinkFor(CafeMessage(nome, mensagemTipo)))
  }

  /** A name of spaces passes the IgarapeCafe.js check, since it does not trim. */
  lemma CafeAcceptsBlankName(mensagemTipo: string)
    requires mensagemTipo != []
    ensures CafeSubmit(" ", mensagemTipo).OpenLink?
  {
  }

  // ---------------------------------------------------------------------
  // index.js: the WhatsApp form
  // ---------------------------------------------------------------------

  const IndexMissingFields: string := "Por favor, preencha seu nome e escolha o tipo de mensagem."

  /** The text template of index.js: the trimmed name, a blank line, the selected option's text. */
  function IndexMessage(nome: string, selectedText: string): string {
    nome + "\n\n" + selectedText
  }

  /** The submit handler of index.js. The name is trimmed; the select is
      checked through its value, while the message uses the selected
      option's display text. */
  function IndexSubmit(rawNome: string, selectValue: string, selectedText: string): (r: Outcome)
    ensures r.OpenLink? <==> !AllWhitespace(rawNome) && selectValue != []
    ensures !r.OpenLink? ==> r == Alert(IndexMissingFields)
    ensures r.OpenLink? ==> r.url == UrlPrefix + EncodeURIComponent(IndexMessage(Trim(rawNome), selectedText))
    ensures r.OpenLink? ==> WellFormed(r.url[|UrlPrefix|..])
    ensures r.OpenLink? ==> MessageOf(r.url) == Some(IndexMessage(Trim(rawNome), selectedText))
  {
    var nome := Trim(rawNome);
    TrimEmptyIff(rawNome);
    if nome == [] || selectValue == [] then Alert(IndexMissingFields)
    else
      LinkRoundTrip(IndexMessage(nome, selectedText));
      OpenLink(LinkFor(IndexMessage(nome, selectedText)))
  }

  /** The worked example: name "Ana" and the option "Quero um orçamento". */
  lemma IndexExample()
    ensures IndexSubmit("Ana", "orcamento", "Quero um orçamento")
         == OpenLink(UrlPrefix + "Ana%0A%0AQuero%20um%20or%C3%A7amento")
  {
    ExampleTrim();
    ExampleEncoding();
    ExampleLiterals();
  }

  lemma ExampleTrim()
    ensures Trim("Ana") == "Ana"
  {
    assert NoWhitespace("Ana");
    TrimNoWhitespace("Ana");
  }

  /** The example strings cut into the pieces the encoder treats alike (unreserved
      runs, escaped characters), so that each equality of literals stays small. */
  lemma ExampleLiterals()
    ensures IndexMessage("Ana", "Quero um orçamento")
         == "Ana" + "\n\n" + ("Quero" + (" um" + " or") + "ç" + "amento")
    ensures "Ana" + "%0A%0A" + ("Quero" + ("%20um" + "%20or") + "%C3%A7" + "amento")
         == "Ana%0A%0AQuero%20um%20or%C3%A7amento"
  {
    ExampleMessageLiteral();
    ExampleUrlLiteral();
  }

  lemma ExampleMessageLiteral()
    ensures "Quero" + (" um" + " or") + "ç" + "amento" == "Quero um orçamento"
  {
  }

  lemma ExampleUrlLiteral()
    ensures "Quero" + ("%20um" + "%20or") + "%C3%A7" + "amento" == "Quero%20um%20or%C3%A7amento"
  {
  }

  /** The encoding of the example message, piece by piece. */
  lemma ExampleEncoding()
    ensures EncodeURIComponent("Ana" + "\n\n" + ("Quero" + (" um" + " or") + "ç" + "amento"))
         == "Ana" + "%0A%0A" + ("Quero" + ("%20um" + "%20or") + "%C3%A7" + "amento")
  {
    UnreservedUnchanged("Ana");
    UnreservedUnchanged("Quero");
    UnreservedUnchanged("amento");
    EscapedPieces();
    EncodeAppend(" um", " or");
    EncodeAppend("Quero", " um" + " or");
    EncodeAppend("Quero" + (" um" + " or"), "ç");
    EncodeAppend("Quero" + (" um" + " or") + "ç", "amento");
    EncodeAppend("Ana", "\n\n");
    EncodeAppend("Ana" + "\n\n", "Quero" + (" um" + " or") + "ç" + "amento");
  }

  /** The pieces of the example that are escaped. */
  lemma EscapedPieces()
    ensures EncodeURIComponent("\n\n") == "%0A%0A"
    ensures EncodeURIComponent(" um") == "%20um"
    ensures EncodeURIComponent(" or") == "%20or"
    ensures EncodeURIComponent("ç") == "%C3%A7"
  {
    EscapedChars();
    SingleChar('\n');
    SingleChar(' ');
    SingleChar('ç');
    UnreservedUnchanged("um");
    UnreservedUnchanged("or");
    EncodeAppend("\n", "\n");
    EncodeAppend(" ", "um");
    EncodeAppend(" ", "or");
  }

  lemma SingleChar(c: char)
    ensures EncodeURIComponent([c]) == UriComponent.EncodeChar(c)
  {
    assert [c][1..] == [];
  }

  /** The escapes of line feed, space and c-cedilla (U+00E7, octets C3 A7). */
  lemma EscapedChars()
    ensures UriComponent.EncodeChar('\n') == "%0A"
    ensures UriComponent.EncodeChar(' ') == "%20"
    ensures UriComponent.EncodeChar('ç') == "%C3%A7"
  {
    assert HexDigit(0) == '0' && HexDigit(10) == 'A' && HexDigit(2) == '2';
    assert HexDigit(12) == 'C' && HexDigit(3) == '3' && HexDigit(7) == '7';
    assert Utf8.EncodeChar('\n') == [0x0A];
    assert Utf8.EncodeChar(' ') == [0x20];
    assert Utf8.EncodeChar('ç') == [0xC3, 0xA7];
    assert PercentOctets([0x0A]) == PercentOctet(0x0A) + PercentOctets([]);
    assert PercentOctets([0x20]) == PercentOctet(0x20) + PercentOctets([]);
    assert [0xC3, 0xA7][1..] == [0xA7];
    assert PercentOctets([0xA7]) == PercentOctet(0xA7) + PercentOctets([]);
    assert PercentOctets([0xC3, 0xA7]) == PercentOctet(0xC3) + PercentOctets([0xA7]);
  }
}
