/** The SCGI request parser as an object that consumes one byte at a time. */
module RequestParser {
  import opened Bytes
  import opened Numerals
  import opened RequestSpec

  class RequestParser {
    var verb: Method
    var uri: seq<byte>
    var headers: map<seq<byte>, seq<byte>>
    var contentType: seq<byte>
    var encoding: seq<byte>
    var body: seq<byte>
    var state: Phase
    var netstringLengthText: seq<byte>
    var netstringLength: nat
    var netstringCount: nat
    var currentHeader: seq<byte>
    var currentValue: seq<byte>
    var contentLength: nat

    ghost function Doc(): Document
      reads this
    {
      Document(headers, verb, uri, contentType, encoding)
    }

    ghost function Abs(): Machine
      reads this
    {
      Machine(state, netstringLengthText, netstringLength, netstringCount, currentHeader, currentValue,
              contentLength, Doc(), body)
    }

    /** `reset` leaves the two netstring counters alone: they start with what the memory held. */
    constructor (length: nat, count: nat)
      ensures Abs() == Fresh(length, count)
    {
      netstringLength, netstringCount, contentType, encoding := length, count, [], [];
      new;
      Reset();
    }

    /** Content type and encoding survive a reset, too. */
    method Reset()
      modifies this
      ensures Abs() == Fresh(old(netstringLength), old(netstringCount)).(
                         doc := NO_DOC.(contentType := old(contentType), encoding := old(encoding)))
    {
      state := NetstringLength;
      verb := Undefined;
      uri := [];
      headers := map[];
      body := [];
      netstringLengthText := [];
      currentHeader := [];
      currentValue := [];
      contentLength := 0;
    }

    /** The part of `consume` that notes the headers the request line depends on, and stores the pair. */
    method StoreHeader()
      modifies this`verb, this`uri, this`contentType, this`encoding, this`headers
      ensures Doc() == Store(old(Doc()), currentHeader, currentValue)
    {
      NamesDiffer();
      hide Ascii;
      if currentHeader == Ascii("REQUEST_METHOD") {
        if currentValue == Ascii("GET") {
          verb := Get;
        } else if currentValue == Ascii("PUT") {
          verb := Put;
        } else if currentValue == Ascii("POST") {
          verb := Post;
        }
      } else if currentHeader == Ascii("REQUEST_URI") {
        uri := currentValue;
      } else if currentHeader == Ascii("CONTENT_TYPE") {
        var parts := Tokens(currentValue);
        contentType := parts[0];
        if |parts| > 1 {
          encoding := parts[1];
        }
      }
      headers := headers[currentHeader := currentValue];
    }

    /** The end of a header value. */
    method FinishHeader() returns (result: Result)
      modifies this
      ensures (Abs(), result) == EndHeader(old(Abs()))
    {
      hide Store, SizeOf;
      if |headers| == 0 {
        if currentHeader != CONTENT_LENGTH {
          return Bad;
        }
        var size := SizeOf(currentValue);
        if size.None? {
          return Bad;
        }
        contentLength := size.value;
      } else if |headers| == 1 && !(currentHeader == SCGI && currentValue == [49]) {
        return Bad;
      }
      StoreHeader();
      currentHeader := [];
      currentValue := [];
      state := HeaderStart;
      result := Indeterminate;
    }

    method Consume(input: byte) returns (result: Result)
      modifies this
      ensures (Abs(), result) == RequestSpec.Consume(old(Abs()), input)
    {
      hide EndHeader, SizeOf;
      netstringCount := (netstringCount + 1) % TWO_64;
      result := Indeterminate;
      if state == NetstringLength {
        if IsDigit(input) {
          netstringLengthText := netstringLengthText + [input];
        } else if input == 58 {
          var size := SizeOf(netstringLengthText);
          if size.None? {
            return Bad;
          }
          netstringLength := size.value;
          netstringCount := 0;
          state := HeaderStart;
        } else {
          return Bad;
        }
      } else if state == HeaderStart || state == HeaderName {
        if state == HeaderStart && input == 44 {
          if netstringLength == (netstringCount + TWO_64 - 1) % TWO_64 {
            if contentLength > 0 {
              state := BodyRange;
            } else {
              return Good;
            }
          } else {
            return Bad;
          }
        } else if netstringCount < netstringLength {
          if input == 0 {
            if |currentHeader| > 0 {
              state := HeaderValue;
            } else {
              return Bad;
            }
          } else {
            currentHeader := currentHeader + [input];
          }
        } else {
          return Bad;
        }
      } else if state == HeaderValue {
        if netstringCount <= netstringLength {
          if input == 0 {
            result := FinishHeader();
          } else {
            currentValue := currentValue + [input];
          }
        } else {
          return Bad;
        }
      } else {
        if |body| <= contentLength {
          body := body + [input];
          if |body| == contentLength {
            return Good;
          }
        } else {
          return Bad;
        }
      }
    }

    method Parse(chunk: seq<byte>) returns (result: Result)
      requires chunk != []
      modifies this
      ensures (Abs(), result) == RequestSpec.Parse(old(Abs()), chunk)
    {
      hide RequestSpec.Consume;
      var begin := 0;
      result := Indeterminate;
      while begin != |chunk|
        invariant 0 <= begin <= |chunk|
        invariant result != Bad
        invariant begin == 0 ==> Abs() == old(Abs())
        invariant begin < |chunk| ==>
                    RequestSpec.Parse(Abs(), chunk[begin..]) == RequestSpec.Parse(old(Abs()), chunk)
        invariant begin == |chunk| ==> (Abs(), result) == RequestSpec.Parse(old(Abs()), chunk)
        decreases |chunk| - begin
      {
        ghost var m, rest := Abs(), chunk[begin..];
        assert rest[0] == chunk[begin] && rest[1..] == chunk[begin + 1..];
        result := Consume(chunk[begin]);
        begin := begin + 1;
        if result == Bad {
          return Bad;
        }
      }
    }
  }
}
