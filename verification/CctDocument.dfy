/** The parsed JSON document of an event, down to the leaves the service reads. */
module CctDocument {
  import opened Wrappers

  /** A JSON value where one of a given type is wanted. */
  datatype Leaf<+T> = Absent | Mistyped | Holds(value: T)

  datatype Station = Station(
    networkName: Leaf<string>, stationName: Leaf<string>, latitude: Leaf<real>, longitude: Leaf<real>)

  /** "network.station". */
  function FullName(s: Station): string
    requires s.networkName.Holds? && s.stationName.Holds?
  {
    s.networkName.value + "." + s.stationName.value
  }

  /** A stream is written out, with its station, once; elsewhere its identifier stands for it. */
  datatype Stream =
    | Reference(identifier: string)
    | Described(id: Leaf<string>, station: Option<Station>)
    | OtherStream

  datatype Waveform = Waveform(stream: Option<Stream>, lowFrequency: Leaf<real>, highFrequency: Leaf<real>)

  datatype Measurement = Measurement(waveform: Option<Waveform>, corrected: Leaf<real>)

  datatype Point = Point(x: Leaf<real>, y: Leaf<real>)

  /** The "type" of a fitted spectrum; OtherKind stands for any other value and for none. */
  datatype SpectrumKind = FIT | UQ1 | UQ2 | OtherKind

  datatype Spectrum = Spectrum(kind: SpectrumKind, points: seq<Point>)

  datatype MwDetails = MwDetails(
    mw: Leaf<real>, stationCount: Leaf<int>, latitude: Leaf<real>, longitude: Leaf<real>,
    depth: Leaf<real>, datetime: Leaf<string>, likelyPoorlyConstrained: Leaf<bool>)

  /** The three maps of the document that are keyed by event identifier. */
  datatype Document = Document(
    measuredMwDetails: map<string, MwDetails>,
    fitSpectra: map<string, seq<Spectrum>>,
    spectraMeasurements: map<string, seq<Measurement>>)
}
