/** The resolved dependency graph that the peer pass and the lockfile work on. */
module DependencyGraph {
  import opened Base

  datatype Node = Node(
    name: string, alias: Option<string>, version: string, resolved: string, integrity: Option<string>,
    dependencies: map<string, string>, hasInstallScript: bool, dev: bool, isOptional: bool,
    peerDependencies: map<string, string>, optionalPeers: set<string>, resolvedPeers: map<string, string>)

  type Nodes = map<string, Node>
}
