/** Namespaced keys (`namespace:name`). The parser itself is not part of
    this model; the modules that need it receive it as a function. */
module Keys {

  datatype BreweryKey = BreweryKey(namespace: string, key: string)
}
