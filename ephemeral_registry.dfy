/** The static half of `EphemeralStore`: the registry from URL scheme to
    factory class name, and the process-wide factory slot that the first
    `getFactory()` fills. Reflection is a lookup in two class tables (the
    class path, then the extension loader); `Zimbra.halt` and uncaught
    exceptions are failure outcomes; the configured backend URL is a
    parameter. */
module EphemeralRegistry {
  import opened Wrappers
  import opened JavaStrings

  /** `LdapEphemeralStore.Factory.class.getName()`. */
  const LDAP_FACTORY_CLASS: string := "com.zimbra.cs.ephemeral.LdapEphemeralStore$Factory"

  /** What reflection can learn about a class: whether it implements
      `Factory` (`asSubclass`), whether `newInstance` succeeds, and the simple
      name of its declaring class (None for a top-level class). */
  datatype ClassInfo = ClassInfo(isFactory: bool, instantiable: bool, declaringClass: Option<string>)

  /** `Class.forName` looks in `classPath`, `ExtensionUtil.findClass` in
      `extensions`. */
  datatype ClassLoader = ClassLoader(classPath: map<string, ClassInfo>, extensions: map<string, ClassInfo>)

  datatype Failure =
    | Halt(message: string)          // Zimbra.halt: the process stops
    | ClassCast(className: string)   // asSubclass on a class that is not a Factory
    | NullPointer                    // getDeclaringClass() of a top-level class

  /** `Class.forName(name)`, falling back to `ExtensionUtil.findClass(name)`. */
  function FindClass(loader: ClassLoader, name: string): (r: Option<ClassInfo>)
    ensures r.None? <==> name !in loader.classPath && name !in loader.extensions
    ensures name in loader.classPath ==> r == Some(loader.classPath[name])
    ensures name !in loader.classPath ==> r == Get(loader.extensions, name)
  {
    if name in loader.classPath then Some(loader.classPath[name])
    else Get(loader.extensions, name)
  }

  /** The factory class name the first `getFactory()` selects: the one
      registered for "ldap" when no URL is configured, otherwise the one
      registered for the URL's first ':'-separated token. */
  function SelectFactoryClass(factories: map<string, string>, url: Option<string>): (r: Option<string>)
    ensures url.None? ==> r == Get(factories, "ldap")
    ensures r.Some? ==> r.value in factories.Values
    ensures url.Some? && r.Some? ==> r == Get(factories, TakeUntil(url.value, ':'))
  {
    if url.None? then Get(factories, "ldap")
    else
      var tokens := JavaSplit(url.value, ':');
      if |tokens| > 0 then JavaSplitHead(url.value, ':'); Get(factories, tokens[0]) else None
  }

  /** The URL's scheme is the text before its first ':'; a URL made only
      of colons has no token at all and selects nothing. */
  lemma SelectionByScheme(factories: map<string, string>, url: string)
    ensures (exists k :: 0 <= k < |url| && url[k] != ':') || url == "" ==>
      SelectFactoryClass(factories, Some(url)) == Get(factories, TakeUntil(url, ':'))
    ensures |url| > 0 && (forall k :: 0 <= k < |url| ==> url[k] == ':') ==>
      SelectFactoryClass(factories, Some(url)) == None
  {
    JavaSplitEmpty(url, ':');
    if |JavaSplit(url, ':')| > 0 {
      JavaSplitHead(url, ':');
    }
  }

  /** How activating a factory class by name ends before an instance
      exists: either a class to instantiate, or the failure. */
  datatype Activation = Instantiate(className: string, info: ClassInfo) | Abort(failure: Failure)

  /** `setFactory(String)` up to `newInstance`, and the failure branch of
      `setFactory(Class)`. */
  function PlanActivation(loader: ClassLoader, name: Option<string>): (r: Activation)
    ensures r.Instantiate? ==> name == Some(r.className) && r.info.isFactory && r.info.instantiable
    ensures name.None? ==> r == Abort(Halt("no EphemeralStore specified"))
    ensures name.Some? && FindClass(loader, name.value).None? ==>
      r == Abort(Halt("Unable to find EphemeralStore factory " + name.value))
    ensures name.Some? && FindClass(loader, name.value).Some? && !FindClass(loader, name.value).value.isFactory ==>
      r == Abort(ClassCast(name.value))
    ensures name.Some? && FindClass(loader, name.value).Some? ==>
      var info := FindClass(loader, name.value).value;
      info.isFactory && !info.instantiable ==>
        r == Abort(if info.declaringClass.Some?
                   then Halt("Unable to initialize EphemeralStore factory " + info.declaringClass.value)
                   else NullPointer)
    ensures name.Some? && FindClass(loader, name.value).Some? ==>
      var info := FindClass(loader, name.value).value;
      info.isFactory && info.instantiable ==> r == Instantiate(name.value, info)
  {
    if name.None? then Abort(Halt("no EphemeralStore specified"))
    else
      match FindClass(loader, name.value)
      case None => Abort(Halt("Unable to find EphemeralStore factory " + name.value))
      case Some(info) =>
        if !info.isFactory then Abort(ClassCast(name.value))
        else if !info.instantiable then
          match info.declaringClass
          case Some(simple) => Abort(Halt("Unable to initialize EphemeralStore factory " + simple))
          case None => Abort(NullPointer)
        else Instantiate(name.value, info)
  }

  /** An instantiated backend factory; `startups` counts the calls to its
      `startup()` hook. */
  class Factory {
    const className: string
    var startups: nat

    constructor (className: string)
      ensures this.className == className && startups == 0
    {
      this.className := className;
      startups := 0;
    }

    method Startup()
      modifies this`startups
      ensures startups == old(startups) + 1
    {
      startups := startups + 1;
    }
  }

  class Registry {
    var factories: map<string, string>
    var factory: Factory?

    /** The static initialiser: only "ldap" is registered, no factory yet. */
    constructor ()
      ensures factories == map["ldap" := LDAP_FACTORY_CLASS]
      ensures factory == null
    {
      factories := map["ldap" := LDAP_FACTORY_CLASS];
      factory := null;
    }

    /** Last writer wins; the active factory is untouched. */
    method RegisterFactory(prefix: string, klass: string)
      modifies this`factories
      ensures factories == old(factories)[prefix := klass]
      ensures forall p :: p in old(factories) && p != prefix ==> factories[p] == old(factories)[p]
      ensures factory == old(factory)
    {
      factories := factories[prefix := klass];
    }

    /** `setFactory(Class)`: the slot is assigned and started before the
        debug log line reads the declaring class's simple name. */
    method SetFactoryClass(name: string, info: ClassInfo) returns (outcome: Option<Failure>)
      requires info.isFactory
      modifies this`factory
      ensures info.instantiable ==>
        && factory != null && fresh(factory)
        && factory.className == name && factory.startups == 1
        && outcome == (if info.declaringClass.Some? then None else Some(NullPointer))
      ensures !info.instantiable ==>
        && factory == old(factory)
        && outcome == Some(if info.declaringClass.Some?
                           then Halt("Unable to initialize EphemeralStore factory " + info.declaringClass.value)
                           else NullPointer)
    {
      if info.instantiable {
        var f := new Factory(name);
        factory := f;
        f.Startup();
        outcome := if info.declaringClass.Some? then None else Some(NullPointer);
      } else {
        outcome := match info.declaringClass
          case Some(simple) => Some(Halt("Unable to initialize EphemeralStore factory " + simple))
          case None => Some(NullPointer);
      }
    }

    /** `setFactory(String)`. */
    method SetFactoryByName(loader: ClassLoader, name: Option<string>) returns (outcome: Option<Failure>)
      modifies this`factory
      ensures PlanActivation(loader, name).Abort? ==>
        factory == old(factory) && outcome == Some(PlanActivation(loader, name).failure)
      ensures PlanActivation(loader, name).Instantiate? ==>
        && factory != null && fresh(factory)
        && factory.className == name.value && factory.startups == 1
        && outcome == (if PlanActivation(loader, name).info.declaringClass.Some? then None else Some(NullPointer))
    {
      if name.None? {
        return Some(Halt("no EphemeralStore specified"));
      }
      var found := FindClass(loader, name.value);
      if found.None? {
        return Some(Halt("Unable to find EphemeralStore factory " + name.value));
      }
      if !found.value.isFactory {
        return Some(ClassCast(name.value));
      }
      outcome := SetFactoryClass(name.value, found.value);
    }

    /** `getFactory()`: memoised; the first call selects, instantiates and
        starts the configured backend's factory. */
    method GetFactory(loader: ClassLoader, url: Option<string>) returns (r: Result<Factory, Failure>)
      modifies this`factory
      ensures factories == old(factories)
      ensures old(factory) != null ==> factory == old(factory) && r == Success(old(factory))
      ensures old(factory) == null ==>
        var plan := PlanActivation(loader, SelectFactoryClass(factories, url));
        && (plan.Abort? ==> factory == null && r == Failure(plan.failure))
        && (plan.Instantiate? ==>
              && factory != null && fresh(factory)
              && factory.className == plan.className && factory.startups == 1
              && r == (if plan.info.declaringClass.Some? then Success(factory) else Failure(NullPointer)))
    {
      if factory == null {
        var factoryClass: Option<string> := None;
        if url.Some? {
          var tokens := JavaSplit(url.value, ':');
          if |tokens| > 0 {
            factoryClass := Get(factories, tokens[0]);
          }
        } else {
          factoryClass := Get(factories, "ldap");
        }
        var outcome := SetFactoryByName(loader, factoryClass);
        if outcome.Some? {
          return Failure(outcome.value);
        }
      }
      r := Success(factory);
    }

    /** `getFactory(String)`: a freshly started factory per call, or null
        when the name is unregistered, its class is not found or cannot be
        instantiated; the slot is never assigned. */
    method GetFactoryByName(loader: ClassLoader, backendName: string) returns (r: Result<Factory?, Failure>)
      ensures factory == old(factory) && factories == old(factories)
      ensures backendName !in factories ==> r == Success(null)
      ensures backendName in factories ==>
        var info := FindClass(loader, factories[backendName]);
        && (info.None? ==> r == Success(null))
        && (info.Some? && !info.value.isFactory ==> r == Failure(ClassCast(factories[backendName])))
        && (info.Some? && info.value.isFactory && !info.value.instantiable ==> r == Success(null))
        && (info.Some? && info.value.isFactory && info.value.instantiable ==>
              && r.Success? && r.value != null && fresh(r.value)
              && r.value.className == factories[backendName] && r.value.startups == 1)
    {
      if backendName !in factories {
        return Success(null);
      }
      var factoryClassName := factories[backendName];
      var found := FindClass(loader, factoryClassName);
      if found.None? {
        return Success(null);
      }
      if !found.value.isFactory {
        return Failure(ClassCast(factoryClassName));
      }
      if !found.value.instantiable {
        return Success(null);
      }
      var f := new Factory(factoryClassName);
      f.Startup();
      r := Success(f);
    }
  }

  /** A fresh registry with no URL configured activates the built-in LDAP
      factory when its class loads and instantiates. */
  method DefaultActivation(loader: ClassLoader) returns (r: Result<Factory, Failure>, again: Result<Factory, Failure>)
    requires LDAP_FACTORY_CLASS in loader.classPath
    requires loader.classPath[LDAP_FACTORY_CLASS] == ClassInfo(true, true, Some("LdapEphemeralStore"))
    ensures r.Success? && r.value.className == LDAP_FACTORY_CLASS && r.value.startups == 1
    ensures again == r
  {
    var registry := new Registry();
    r := registry.GetFactory(loader, None);
    again := registry.GetFactory(loader, Some("other:url"));
  }
}
