/** The summary of a pcap file: the reader and the summary together. */
module CaptureFiles {
  import opened Bytes
  import opened CaptureMatcher
  import opened CaptureSummaries
  import Pcap

  /** The summary of records held in memory. */
  function SummaryOf(records: seq<Record>): Summary {
    var items := ItemsOf(records);
    Reference(items, Verdicts(items))
  }

  /** `--summarise`: a file that cannot be read keeps its error. */
  method SummariseFile(bytes: seq<byte>) returns (r: Result<Summary, Pcap.Error>)
    ensures r == match Pcap.Read(bytes) case Ok(records) => Ok(SummaryOf(records)) case Err(e) => Err(e)
  {
    var records := Pcap.ParsePcap(bytes);
    if records.Err? {
      return Err(records.error);
    }
    var s := Summarise(records.value);
    r := Ok(s);
  }
}
