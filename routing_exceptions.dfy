/** The errors the routing layer raises (inc/osvr/Routing/Exceptions.h):
    a closed set of four kinds, each with the message its constructor builds. */
module RoutingExceptions {
  import opened Wrappers

  datatype RoutingError =
    | InvalidDeviceName(details: string)
    | EmptyPathComponent(path: string)
    | EmptyPath
    | PathNotAbsolute(path: string)

  // The message texts are written in pieces of at most twenty characters so
  // that the verifier can look at their individual characters.
  const InvalidDeviceNamePrefix: string := "Attempted to add " + "invalid device name " + "to tree: "
  const EmptyPathComponentPrefix: string := "Cannot use a path " + "with an empty " + "component: "
  const EmptyPathMessage: string := "Cannot retrieve an " + "empty path!"
  const PathNotAbsolutePrefix: string := "Provided path was " + "not absolute " + "(no leading slash): "

  /** The text `what()` reports for an error. */
  function Message(e: RoutingError): string
  {
    match e
    case InvalidDeviceName(details) => InvalidDeviceNamePrefix + details
    case EmptyPathComponent(path) => EmptyPathComponentPrefix + path
    case EmptyPath => EmptyPathMessage
    case PathNotAbsolute(path) => PathNotAbsolutePrefix + path
  }

  /** Reads an error back from its message text; None when the text is not
      a routing error message. */
  function Classify(msg: string): Option<RoutingError>
  {
    if InvalidDeviceNamePrefix <= msg then Some(InvalidDeviceName(msg[|InvalidDeviceNamePrefix|..]))
    else if EmptyPathComponentPrefix <= msg then Some(EmptyPathComponent(msg[|EmptyPathComponentPrefix|..]))
    else if msg == EmptyPathMessage then Some(EmptyPath)
    else if PathNotAbsolutePrefix <= msg then Some(PathNotAbsolute(msg[|PathNotAbsolutePrefix|..]))
    else None
  }

  /** The message of an error determines the error: each kind has its own
      fixed prefix (or fixed text), followed by exactly the details or path
      it was built from. */
  lemma MessageIdentifiesError(e: RoutingError)
    ensures Classify(Message(e)) == Some(e)
  {
    var m := Message(e);
    assert InvalidDeviceNamePrefix[0] == 'A' && EmptyPathComponentPrefix[0] == 'C';
    match e
    case InvalidDeviceName(details) =>
      assert m[..|InvalidDeviceNamePrefix|] == InvalidDeviceNamePrefix;
      assert m[|InvalidDeviceNamePrefix|..] == details;
    case EmptyPathComponent(path) =>
      assert m[..|EmptyPathComponentPrefix|] == EmptyPathComponentPrefix;
      assert m[|EmptyPathComponentPrefix|..] == path;
    case EmptyPath =>
      assert m[7] == 'r' && EmptyPathComponentPrefix[7] == 'u';
    case PathNotAbsolute(path) =>
      assert PathNotAbsolutePrefix[0] == 'P';
      assert m[..|PathNotAbsolutePrefix|] == PathNotAbsolutePrefix;
      assert m[|PathNotAbsolutePrefix|..] == path;
  }

  /** Distinct errors never share a message. */
  lemma MessageInjective(e1: RoutingError, e2: RoutingError)
    requires Message(e1) == Message(e2)
    ensures e1 == e2
  {
    MessageIdentifiesError(e1);
    MessageIdentifiesError(e2);
  }
}
