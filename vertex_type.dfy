/** The category of a site in the water network, one per vertex. */
module VertexTypes {

  datatype VertexType = Reservoir | Stations | Cities | Pipe | SuperSink | SuperSource
}
