/** The `convert` command's front end: the eight conversion names, the
    argument guard, the optional header file read before anything else, and
    the choice of converter (with the header requirement of `csv2arff`). */
module Conversions {
  import opened Results
  import opened Registry
  import opened Headers

  datatype Conversion =
    | Bi2Bif | Bi2Xml | Xml2Bif | Bif2Fg | Bif2Uai
    | Ev2Evid | Csv2Arff | Mo2Mar

  /** The name given with `-t`. */
  function Name(c: Conversion): string {
    match c
    case Bi2Bif => "bi2bif"
    case Bi2Xml => "bi2xml"
    case Xml2Bif => "xml2bif"
    case Bif2Fg => "bif2fg"
    case Bif2Uai => "bif2uai"
    case Ev2Evid => "ev2evid"
    case Csv2Arff => "csv2arff"
    case Mo2Mar => "mo2mar"
  }

  /** `ConvTypes`: every conversion, in the order the usage text lists them. */
  function ConvTypes(): (cs: seq<Conversion>)
    ensures |cs| == 8
    ensures forall i, j :: 0 <= i < j < |cs| ==> Name(cs[i]) != Name(cs[j])
  {
    [Bi2Bif, Bi2Xml, Xml2Bif, Bif2Fg, Bif2Uai, Ev2Evid, Csv2Arff, Mo2Mar]
  }

  /** Every conversion is listed. */
  lemma Listed(c: Conversion)
    ensures c in ConvTypes()
  {
    match c
    case Bi2Bif => assert ConvTypes()[0] == c;
    case Bi2Xml => assert ConvTypes()[1] == c;
    case Xml2Bif => assert ConvTypes()[2] == c;
    case Bif2Fg => assert ConvTypes()[3] == c;
    case Bif2Uai => assert ConvTypes()[4] == c;
    case Ev2Evid => assert ConvTypes()[5] == c;
    case Csv2Arff => assert ConvTypes()[6] == c;
    case Mo2Mar => assert ConvTypes()[7] == c;
  }

  /** The `switch` on the conversion name: a listed name selects its
      conversion, anything else none. */
  function Lookup(name: string): (r: Option<Conversion>)
    ensures r.Some? ==> Name(r.value) == name
    ensures r.None? <==> forall c :: Name(c) != name
  {
    if name == "bi2bif" then Some(Bi2Bif)
    else if name == "bi2xml" then Some(Bi2Xml)
    else if name == "xml2bif" then Some(Xml2Bif)
    else if name == "bif2fg" then Some(Bif2Fg)
    else if name == "bif2uai" then Some(Bif2Uai)
    else if name == "ev2evid" then Some(Ev2Evid)
    else if name == "csv2arff" then Some(Csv2Arff)
    else if name == "mo2mar" then Some(Mo2Mar)
    else None
  }

  /** Every conversion is selected by its own name, and by no other. */
  lemma LookupName(c: Conversion, name: string)
    ensures Lookup(Name(c)) == Some(c)
    ensures Lookup(name) == Some(c) <==> name == Name(c)
  {
  }

  datatype ConvertError =
    | MissingArguments           // no input, no output or no conversion name
    | HeaderUnreadable(e: HeaderError)
    | HeaderNeeded               // `csv2arff` without any variable from a header
    | InvalidOption(name: string)

  /** What the converter is run with: the conversion and the variables of the
      header file (none when no header file is named). */
  datatype Job = Job(conv: Conversion, vars: seq<Var>)

  /** The command line guard, then `Convert` up to the converter call: the
      header file (`None` when `-h` is not given, else its lines) is parsed
      before the conversion name is looked at. */
  function Dispatch(src: string, dst: string, convType: string, header: Option<seq<string>>)
    : (r: Result<Job, ConvertError>)
    ensures r.Success? ==> Name(r.value.conv) == convType
    ensures r.Success? && header.None? ==> r.value.vars == []
    ensures r.Success? && header.Some? ==> ParseHeader(header.value) == Success(r.value.vars)
    ensures r.Success? && r.value.conv == Csv2Arff ==> |r.value.vars| > 0
  {
    if src == "" || dst == "" || convType == "" then Failure(MissingArguments)
    else
      var vs :- match header {
        case None => Success([])
        case Some(lines) =>
          match ParseHeader(lines) {
            case Success(vs) => Success(vs)
            case Failure(e) => Failure(HeaderUnreadable(e))
          }
      };
      match Lookup(convType) {
        case None => Failure(InvalidOption(convType))
        case Some(c) =>
          if c == Csv2Arff && |vs| == 0 then Failure(HeaderNeeded)
          else Success(Job(c, vs))
      }
  }

  /** The dispatch fails exactly when an argument is missing, the header
      does not parse, the name is not one of `ConvTypes`, or `csv2arff` has
      no variables; a header error is reported before an unknown name. */
  lemma DispatchOutcome(src: string, dst: string, convType: string, header: Option<seq<string>>)
    ensures var vs := if header.Some? && ParseHeader(header.value).Success? then ParseHeader(header.value).value else [];
      && (Dispatch(src, dst, convType, header).Success? <==>
            && src != "" && dst != "" && convType != ""
            && (header.Some? ==> ParseHeader(header.value).Success?)
            && (exists i :: 0 <= i < |ConvTypes()| && Name(ConvTypes()[i]) == convType)
            && (convType == Name(Csv2Arff) ==> |vs| > 0))
      && (src != "" && dst != "" && convType != "" && header.Some? && ParseHeader(header.value).Failure? ==>
            Dispatch(src, dst, convType, header) == Failure(HeaderUnreadable(ParseHeader(header.value).error)))
  {
    var r := Dispatch(src, dst, convType, header);
    if src != "" && dst != "" && convType != "" && (header.Some? ==> ParseHeader(header.value).Success?) {
      match Lookup(convType)
      case Some(c) =>
        var cs := ConvTypes();
        Listed(c);
        var i :| 0 <= i < |cs| && cs[i] == c;
        assert Name(cs[i]) == convType;
      case None =>
    }
  }
}
