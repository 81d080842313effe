/** The records that flow between the dataset helpers and the feature-table builder. */
module Samples {

  /** A decoded raster image; its pixels play no part in the model. */
  type Image

  /** The tuple `(image, label, filename)` built by `read_images` and consumed by
      `extract_features` as one row of `stacks`. The label is called `target`, as
      `BreaKHis` calls it, because `label` is a Dafny keyword. */
  datatype Sample = Sample(image: Image, target: int, fname: string)
}
