/** The top-level configuration: the resource group id, the monitoring and
    load-testing sections, and the Tendermint network. */
module TestnetConfig {
  import opened Wrappers
  import opened YamlValue
  import opened Network
  import NetworkExamples

  datatype SignalFXConfig = SignalFXConfig(apiToken: string, realm: string)

  datatype InfluxDBConfig = InfluxDBConfig(
    deploy: bool, region: string, database: string, username: string, password: string)

  datatype MonitoringConfig = MonitoringConfig(signalfx: SignalFXConfig, influxdb: InfluxDBConfig)

  datatype TMBenchLoadTestConfig = TMBenchLoadTestConfig(
    clientNodes: int, targets: seq<string>, time: int, broadcastTxMethod: string,
    connections: int, rate: int, size: int)

  datatype LoadTestConfig = LoadTestConfig(name: string, testMethod: string, config: TMBenchLoadTestConfig)

  datatype LoadTestsConfig = LoadTestsConfig(tests: seq<(string, LoadTestConfig)>)

  /** The resource group id is kept as the YAML value it was given as. */
  datatype Config = Config(
    resourceGroupId: Value, monitoring: MonitoringConfig,
    network: NetworkConfig, loadTests: LoadTestsConfig)

  /** The class-level defaults of the monitoring section. */
  const DefaultMonitoring := MonitoringConfig(
    SignalFXConfig("", ""),
    InfluxDBConfig(false, "us-east-1", "tendermint", "tendermint", "changeme"))

  /** The class-level defaults of the load-testing section: one tm-bench test
      called "load0". */
  const DefaultLoadTests := LoadTestsConfig([
    ("load0", LoadTestConfig("load0", "tm-bench",
      TMBenchLoadTestConfig(1, ["validators"], 120, "async", 1, 1000, 250)))])

  /** `MonitoringConfig.load`: whatever it is given, a fresh default section. */
  function LoadMonitoring(v: Value): (m: MonitoringConfig)
    ensures m.influxdb.deploy == false && m.signalfx.apiToken == ""
  {
    DefaultMonitoring
  }

  /** `LoadTestsConfig.load`: whatever it is given, the default test list. */
  function LoadLoadTests(v: Value): (t: LoadTestsConfig)
    ensures |t.tests| == 1 && t.tests[0].0 == t.tests[0].1.name == "load0"
  {
    DefaultLoadTests
  }

  /** `Config.load`: the document must be a mapping holding "id" and
      "tendermint_network"; the network section must load; the monitoring and
      load-test sections are optional. */
  function LoadConfig(v: Value, localFiles: set<string>): (r: Result<Config>)
    ensures r.Ok? <==>
      && v.Map?
      && Get(v.entries, "id").Some?
      && Get(v.entries, "tendermint_network").Some?
      && NetworkFromValue(Get(v.entries, "tendermint_network").value, localFiles).Ok?
    ensures r.Ok? ==> Get(v.entries, "id") == Some(r.value.resourceGroupId)
    ensures r.Ok? ==>
      NetworkFromValue(Get(v.entries, "tendermint_network").value, localFiles) == Ok(r.value.network)
    ensures r.Ok? ==> r.value.monitoring == DefaultMonitoring && r.value.loadTests == DefaultLoadTests
  {
    if !v.Map? then Err
    else
      var id := Get(v.entries, "id");
      var network := Get(v.entries, "tendermint_network");
      if id.None? || network.None? then Err
      else
        var monitoring := if Get(v.entries, "monitoring").Some? then LoadMonitoring(Get(v.entries, "monitoring").value) else DefaultMonitoring;
        var net :- NetworkFromValue(network.value, localFiles);
        var loadTests := if Get(v.entries, "load_tests").Some? then LoadLoadTests(Get(v.entries, "load_tests").value) else DefaultLoadTests;
        Ok(Config(id.value, monitoring, net, loadTests))
  }

  /** Removing the "monitoring" and "load_tests" sections from the document
      does not change the outcome: their contents are never inspected. */
  lemma OptionalSectionsIgnored(entries: seq<(string, Value)>, localFiles: set<string>)
    ensures LoadConfig(Map(entries), localFiles)
         == LoadConfig(Map(Without(entries, {"monitoring", "load_tests"})), localFiles)
  {
    GetWithout(entries, {"monitoring", "load_tests"}, "id");
    GetWithout(entries, {"monitoring", "load_tests"}, "tendermint_network");
  }

  /** A loaded configuration carries a network in which every reference
      resolves, whichever group declares it. */
  lemma LoadedConfigConsistent(v: Value, localFiles: set<string>)
    requires LoadConfig(v, localFiles).Ok?
    ensures var groups := LoadConfig(v, localFiles).value.network.nodeGroupConfigs;
      && |groups| > 0
      && (forall k, i :: 0 <= k < |groups| && 0 <= i < |groups[k].1.useSeeds| ==>
            RefResolves(groups, groups[k].1.useSeeds[i]))
      && (forall k, i :: 0 <= k < |groups| && 0 <= i < |groups[k].1.persistentPeers| ==>
            RefResolves(groups, groups[k].1.persistentPeers[i]))
  {
    NetworkFromValueLoaded(Get(v.entries, "tendermint_network").value, localFiles);
  }

  /** Whatever the configuration loader accepts, the written network loader
      accepts too, with the same network. */
  lemma LoadConfigNetworkAsWritten(v: Value, localFiles: set<string>)
    requires LoadConfig(v, localFiles).Ok?
    ensures NetworkFromValueAsWritten(Get(v.entries, "tendermint_network").value, localFiles)
         == Ok(LoadConfig(v, localFiles).value.network)
  {
    AsWrittenAcceptsCorrected(Get(v.entries, "tendermint_network").value, localFiles);
  }

  /** A document with an id and a network whose first group refers forward to
      the second loads, whatever its monitoring section says. */
  lemma ForwardConfigLoads()
    ensures LoadConfig(Map([("id", Str("rg")), ("monitoring", Int(3)),
                            ("tendermint_network", NetworkExamples.ForwardNetwork())]), {})
         == Ok(Config(Str("rg"), DefaultMonitoring,
                      NetworkConfig(NetworkExamples.ForwardGroups()), DefaultLoadTests))
  {
    NetworkExamples.ForwardReferenceAccepted();
  }
}
