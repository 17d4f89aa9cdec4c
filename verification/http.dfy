/**
 * The view of an HTTP request head that the framer relies on. The head parser
 * (the `httparse` crate) is not modelled: it is passed around as a function
 * value whose results carry the head length, method, path and header list.
 */
module Http {
  import opened Base
  import Decimal

  const ContentLengthName: string := "Content-Length"

  /** One parsed header: the name as text, the value as raw bytes. */
  datatype Header = Header(name: string, value: seq<Byte>)

  /** A complete request head: `headLen` bytes of request line and headers; `verb` is the request method. */
  datatype RequestHead = RequestHead(
    headLen: nat,
    verb: Option<string>,
    path: Option<string>,
    headers: seq<Header>)

  /**
   * `Partial` is `Ok(Status::Partial)`, `Invalid` stands for every `Err(_)`
   * (including more headers than the firmware's 64 header slots hold), `Complete` is `Ok(Status::Complete(n))`
   * together with what the parser filled in.
   */
  datatype ParseStatus = Partial | Invalid | Complete(head: RequestHead)

  type Parser = seq<Byte> -> ParseStatus

  /** The head a complete parse reports lies within the bytes parsed. */
  ghost predicate HeadWithinInput(parse: Parser) {
    forall input :: parse(input).Complete? ==> parse(input).head.headLen <= |input|
  }

  /**
   * Once a prefix of the input parses as a complete head, appending bytes
   * changes nothing: the head is decided by the bytes up to its blank line.
   */
  ghost predicate PrefixStable(parse: Parser) {
    forall input, prefix ::
      prefix <= input && parse(prefix).Complete? ==> parse(input) == parse(prefix)
  }

  /** What the request framer may assume of the head parser. */
  ghost predicate ParserContract(parse: Parser) {
    HeadWithinInput(parse) && PrefixStable(parse)
  }

  /** A header named exactly `Content-Length` (case-sensitive) whose value parses as a `usize`. */
  predicate DeclaresLength(h: Header) {
    h.name == ContentLengthName && Decimal.ParseUsize(h.value).Some?
  }

  /** The length such a header declares. */
  function DeclaredLength(h: Header): (n: nat)
    requires DeclaresLength(h)
    ensures n <= Decimal.UsizeMax
  {
    Decimal.ParseUsize(h.value).value
  }

  /**
   * The firmware's scan over the header list, front to back: `current` is the
   * running value, overwritten by every header that declares a length.
   */
  function ScanContentLength(headers: seq<Header>, current: nat): nat {
    if headers == [] then current
    else
      var h := headers[0];
      ScanContentLength(headers[1..], if DeclaresLength(h) then DeclaredLength(h) else current)
  }

  /** The body length the framer waits for: the scan starting from 0. */
  function ContentLength(headers: seq<Header>): nat {
    ScanContentLength(headers, 0)
  }

  /** No header of the list declares a length. */
  predicate NoneDeclared(headers: seq<Header>) {
    forall i :: 0 <= i < |headers| ==> !DeclaresLength(headers[i])
  }

  /** Header `i` declares a length and no later header does. */
  predicate LastDeclaration(headers: seq<Header>, i: int) {
    && 0 <= i < |headers|
    && DeclaresLength(headers[i])
    && NoneDeclared(headers[i + 1..])
  }

  lemma {:induction false} ScanIsLastDeclared(headers: seq<Header>, current: nat)
    ensures NoneDeclared(headers) ==> ScanContentLength(headers, current) == current
    ensures forall i :: LastDeclaration(headers, i) ==>
      ScanContentLength(headers, current) == DeclaredLength(headers[i])
  {
    if headers != [] {
      var h := headers[0];
      var next := if DeclaresLength(h) then DeclaredLength(h) else current;
      var rest := headers[1..];
      ScanIsLastDeclared(rest, next);
      forall i | LastDeclaration(headers, i)
        ensures ScanContentLength(headers, current) == DeclaredLength(headers[i])
      {
        if i > 0 {
          assert rest[i - 1..] == headers[i..];
          assert LastDeclaration(rest, i - 1);
        } else {
          assert rest == headers[1..];
        }
      }
      if NoneDeclared(headers) {
        assert !DeclaresLength(headers[0]);
        assert NoneDeclared(rest) by {
          forall j | 0 <= j < |rest| ensures !DeclaresLength(rest[j]) {
            assert rest[j] == headers[j + 1];
          }
        }
      }
    }
  }

  /**
   * The extracted length is that of the LAST header declaring one; headers
   * whose value does not parse are skipped; with none, the length is 0.
   */
  lemma ContentLengthIsLastDeclared(headers: seq<Header>)
    ensures ContentLength(headers) <= Decimal.UsizeMax
    ensures NoneDeclared(headers) ==> ContentLength(headers) == 0
    ensures forall i :: LastDeclaration(headers, i) ==>
      ContentLength(headers) == DeclaredLength(headers[i])
  {
    ScanIsLastDeclared(headers, 0);
    ScanBounded(headers, 0);
  }

  lemma {:induction false} ScanAppend(headers: seq<Header>, h: Header, current: nat)
    ensures ScanContentLength(headers + [h], current)
      == if DeclaresLength(h) then DeclaredLength(h) else ScanContentLength(headers, current)
  {
    if headers == [] {
      assert [h][1..] == [];
    } else {
      var next := if DeclaresLength(headers[0]) then DeclaredLength(headers[0]) else current;
      assert (headers + [h])[1..] == headers[1..] + [h];
      ScanAppend(headers[1..], h, next);
    }
  }

  /**
   * One more header: a later valid `Content-Length` replaces the value so far,
   * anything else leaves it as it was.
   */
  lemma ContentLengthAppend(headers: seq<Header>, h: Header)
    ensures ContentLength(headers + [h])
      == if DeclaresLength(h) then DeclaredLength(h) else ContentLength(headers)
  {
    ScanAppend(headers, h, 0);
  }

  /** The extracted length never exceeds `usize::MAX`. */
  lemma {:induction false} ScanBounded(headers: seq<Header>, current: nat)
    requires current <= Decimal.UsizeMax
    ensures ScanContentLength(headers, current) <= Decimal.UsizeMax
  {
    if headers != [] {
      var next := if DeclaresLength(headers[0]) then DeclaredLength(headers[0]) else current;
      ScanBounded(headers[1..], next);
    }
  }
}
