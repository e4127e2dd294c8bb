/** What a caller observes of the worker's protocol. */
module Sessions {
  import opened Layout
  import opened Idct
  import opened Worker

  /**
   * Starting the same slot twice without draining it: the second start is
   * refused with `SlotBusy`, unless the component's plane is empty, in
   * which case the buffer still reads as drained and the start succeeds.
   */
  method StartTwice(data: RowData) returns (first: Outcome, second: Outcome)
    requires data.index < MaxComponents
    ensures first == Pass
    ensures second == if ComponentPlaneSize(data.component) > 0 then Fail(SlotBusy) else Pass
  {
    var w := new Worker();
    first := w.Start(data);
    second := w.Start(data);
  }

  /** Draining a started slot yields the zero plane once; draining it again yields an empty buffer. */
  method DrainTwice(data: RowData) returns (plane: array<byte>, rest: array<byte>)
    requires data.index < MaxComponents
    ensures plane[..] == ZeroPlane(data.component)
    ensures rest.Length == 0
  {
    var w := new Worker();
    var _ := w.Start(data);
    var got := w.GetResult(data.index);
    plane := got.value;
    got := w.GetResult(data.index);
    rest := got.value;
  }

  /**
   * A session of one row: start, append a row of the right length, drain.
   * The plane handed out is the zero plane with that row stored at cursor 0.
   */
  method OneRowSession(data: RowData, row: seq<i16>, idct: SampleFn) returns (plane: array<byte>)
    requires data.index < MaxComponents
    requires |row| == ComponentRowLength(data.component)
    requires data.component.verticalSamplingFactor <= data.component.blockHeight
    ensures plane[..] == RowStored(ZeroPlane(data.component), 0, data.component, row,
                                   data.quantizationTable, idct)
  {
    var c := data.component;
    MulMonotone(c.verticalSamplingFactor, c.blockHeight, c.blockWidth * 64);
    assert ComponentRowLength(c) <= ComponentPlaneSize(c);
    var w := new Worker();
    var _ := w.Start(data);
    var appended := w.AppendRow(data.index, row, idct);
    assert appended == Pass;
    var got := w.GetResult(data.index);
    plane := got.value;
  }
}
