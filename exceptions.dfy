/** The errors the codec reports: XMLRPCException and the Java runtime exceptions its code can raise. */
module Exceptions {
  import opened Wrappers
  import opened Decimal

  /** An XMLRPCException: its message (possibly null), its fault code, and the cause it wraps, if any. */
  datatype XmlRpcException = XmlRpcException(message: Option<string>, faultCode: int32, cause: Option<string>)
  {
    /** The fault code fixed when the exception was made. */
    function GetFaultCode(): (code: int32)
      ensures code == faultCode
    {
      faultCode
    }
  }

  /** The constructor taking only a message: fault code 0, no cause. */
  function WithMessage(msg: Option<string>): (e: XmlRpcException)
    ensures e.GetFaultCode() == 0 && e.message == msg && e.cause == None
  {
    XmlRpcException(msg, 0, None)
  }

  /** The constructor taking the fault code and message of a fault response. */
  function WithFault(faultCode: int32, msg: Option<string>): (e: XmlRpcException)
    ensures e.GetFaultCode() == faultCode && e.message == msg && e.cause == None
  {
    XmlRpcException(msg, faultCode, None)
  }

  /** The constructor wrapping a cause: fault code 0. */
  function WithCause(msg: Option<string>, cause: string): (e: XmlRpcException)
    ensures e.GetFaultCode() == 0 && e.message == msg && e.cause == Some(cause)
  {
    XmlRpcException(msg, 0, Some(cause))
  }

  /**
   * How an operation can fail:
   * UnsupportedParameterType  the RuntimeException of the encoder for an unsupported object;
   * IllegalArgument           IllegalArgumentException, with its message;
   * Rpc                       an XMLRPCException;
   * NumberFormat              Integer.parseInt refusing a text;
   * DateParse                 the date parser refusing a text (ParseException);
   * Base64Format              the Base64 decoder refusing a text;
   * BadFaultPayload           a fault struct whose faultCode is missing or not an int, or whose
   *                           faultString is not a string (NullPointerException, ClassCastException);
   * IllegalState              a typed getter asked for a value of another type;
   * IndexOutOfBounds          a getter asked for a position outside the value list.
   */
  datatype Error =
    | UnsupportedParameterType
    | IllegalArgument(message: string)
    | Rpc(exception: XmlRpcException)
    | NumberFormat(text: string)
    | DateParse(text: string)
    | Base64Format(text: string)
    | BadFaultPayload
    | IllegalState
    | IndexOutOfBounds(index: int)
}
