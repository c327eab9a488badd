/** The scaler's trigger metadata: required keys, the default browser
    version and the optional TLS-verification flag. */
module SeleniumGridMetadata {
  import opened Wrappers
  import opened SeleniumGrid

  /** What the host controller hands to the scaler. */
  datatype ScalerConfig = ScalerConfig(triggerMetadata: map<string, string>, scalerIndex: int)

  /** The parsed metadata the scaler keeps. */
  datatype ScalerMetadata = ScalerMetadata(
    url: string,
    browserName: string,
    targetValue: int,
    browserVersion: string,
    unsafeSsl: bool,
    scalerIndex: int)

  datatype MetadataError =
    | NoUrl                         // no "url" key
    | NoBrowserName                 // no "browserName" key
    | InvalidUnsafeSsl(value: string) // "unsafeSsl" is not a boolean

  /** Fills the metadata field by field from the configuration and stops at
      the first missing or malformed key. `parseBool` is the boolean parser
      of the standard library; `None` is its error. */
  method ParseSeleniumGridScalerMetadata(config: ScalerConfig, parseBool: string -> Option<bool>)
    returns (r: Result<ScalerMetadata, MetadataError>)
    ensures var m := config.triggerMetadata;
            r.Success? <==> ("url" in m && "browserName" in m
                             && ("unsafeSsl" in m ==> parseBool(m["unsafeSsl"]).Some?))
    ensures "url" !in config.triggerMetadata ==> r == Failure(NoUrl)
    ensures var m := config.triggerMetadata;
            "url" in m && "browserName" !in m ==> r == Failure(NoBrowserName)
    ensures var m := config.triggerMetadata;
            ("url" in m && "browserName" in m && "unsafeSsl" in m && parseBool(m["unsafeSsl"]).None?)
              ==> r == Failure(InvalidUnsafeSsl(m["unsafeSsl"]))
    ensures var m := config.triggerMetadata;
            r.Success? ==>
              && r.value.url == m["url"]
              && r.value.browserName == m["browserName"]
              && r.value.targetValue == 1
              && r.value.scalerIndex == config.scalerIndex
              && r.value.unsafeSsl == ("unsafeSsl" in m && parseBool(m["unsafeSsl"]).value)
    ensures var m := config.triggerMetadata;
            r.Success? ==>
              r.value.browserVersion
                == if "browserVersion" in m && m["browserVersion"] != "" then m["browserVersion"]
                   else DefaultBrowserVersion
    ensures r.Success? ==> r.value.browserVersion != ""
  {
    var meta := ScalerMetadata("", "", 1, "", false, 0);
    var m := config.triggerMetadata;

    if "url" in m {
      meta := meta.(url := m["url"]);
    } else {
      return Failure(NoUrl);
    }

    if "browserName" in m {
      meta := meta.(browserName := m["browserName"]);
    } else {
      return Failure(NoBrowserName);
    }

    if "browserVersion" in m && m["browserVersion"] != "" {
      meta := meta.(browserVersion := m["browserVersion"]);
    } else {
      meta := meta.(browserVersion := DefaultBrowserVersion);
    }

    if "unsafeSsl" in m {
      match parseBool(m["unsafeSsl"]) {
        case None =>
          return Failure(InvalidUnsafeSsl(m["unsafeSsl"]));
        case Some(parsed) =>
          meta := meta.(unsafeSsl := parsed);
      }
    }

    meta := meta.(scalerIndex := config.scalerIndex);
    return Success(meta);
  }
}
