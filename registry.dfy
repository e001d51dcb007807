/** The service registry of sso/config.go: registered client services by name. */
module Registry {

  /** A registered client service: its name, where to send the browser back, and its signing key. */
  datatype Service = Service(name: string, callbackUrl: string, key: string)

  /** Go's zero value of Service, returned for an unknown name. */
  const ZeroService := Service("", "", "")

  datatype Services = Services(services: map<string, Service>)

  /** Every entry is filed under its own name. */
  predicate KeyedByName(m: map<string, Service>) {
    forall n :: n in m ==> m[n].name == n
  }

  type ServiceRegistry = r: Services | KeyedByName(r.services) witness Services(map[])

  /** Get: the service registered under `name` and true, or the zero Service and false. */
  function Get(r: ServiceRegistry, name: string): (result: (Service, bool))
    ensures result.1 <==> name in r.services
    ensures result.1 ==> result.0.name == name
    ensures !result.1 ==> result.0 == ZeroService
  {
    if name in r.services then (r.services[name], true) else (ZeroService, false)
  }

  /** The loop of LoadServiceRegistry, over the already decoded list: each entry is stored
      under its name, so a later entry with the same name replaces an earlier one. */
  method Build(configs: seq<Service>) returns (registry: ServiceRegistry)
    ensures forall name :: Get(registry, name).1 <==> exists i :: 0 <= i < |configs| && configs[i].name == name
    ensures forall i :: 0 <= i < |configs| && (forall j :: i < j < |configs| ==> configs[j].name != configs[i].name) ==>
                          Get(registry, configs[i].name) == (configs[i], true)
  {
    var services: map<string, Service> := map[];
    var i := 0;
    while i < |configs|
      invariant 0 <= i <= |configs|
      invariant KeyedByName(services)
      invariant services.Keys == set j | 0 <= j < i :: configs[j].name
      invariant forall j :: 0 <= j < i && (forall l :: j < l < i ==> configs[l].name != configs[j].name) ==>
                             configs[j].name in services && services[configs[j].name] == configs[j]
    {
      services := services[configs[i].name := configs[i]];
      i := i + 1;
    }
    forall name | exists j :: 0 <= j < |configs| && configs[j].name == name
      ensures name in services
    {
      var j :| 0 <= j < |configs| && configs[j].name == name;
      assert configs[j].name in set l | 0 <= l < |configs| :: configs[l].name;
    }
    registry := Services(services);
  }
}
