/** What the engines ask of the ipcalc library, kept abstract: parsing a
    network with `ipcalc.Network(x)`, which may raise, and the containment
    test `a in network`, which parses `a` and raises where it cannot. */
module IpCalc {
  import opened Shapes

  /** `network(x)` is `ipcalc.Network(x)`, None where the library raises;
      `contains(n, a)` is `a in n`, None where the library raises. The
      argument of `network` is a string or, where the source hands it a
      resolved group, a list. */
  datatype Calc<!N> = Calc(network: Value -> Option<N>, contains: (N, string) -> Option<bool>)
}
