/** The records the program threads through its components. */
module Weather {
  import opened Wrappers

  /**
   * The status record (`WStatus`, or `WError` on a connection error). The
   * texts are as the weather feed gave them; `heatIndex` is `None` until the
   * first sample; `errorMessage` is set only on the connection-error record.
   */
  datatype Status = Status(
    title: string,
    author: string,
    filename: string,
    code: string,
    temp: string,
    heatIndex: Option<int>,
    condition: string,
    date: string,
    humidity: string,
    forecast: string,
    tempUnit: string,
    errorMessage: Option<string>)

  /** The status record `main` starts with: every text empty. */
  const InitialStatus := Status("", "", "", "", "", None, "", "", "", "", "", None)

  /**
   * One snapshot of the settings file. The fields are the settings the core
   * reads; `other` holds every remaining setting by name (paths, screen size,
   * overlay colours), which the core only compares.
   */
  datatype Settings = Settings(
    locationId: string,
    metricUnits: bool,
    refreshDelay: int,
    hotThreshold: int,
    useHeatIndex: bool,
    errorCode: string,
    overlayEnabled: bool,
    overlayFont: string,
    other: map<string, string>)
}
