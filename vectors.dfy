/** The fixed-size vectors and points of nalgebra that the core uses. */
module Vectors {

  /** nalgebra's `Vector3<T>`. */
  datatype Vector3<T> = Vector3(x: T, y: T, z: T)

  /** nalgebra's `Vector4<T>`; for colours x, y, z, w hold red, green, blue, alpha. */
  datatype Vector4<T> = Vector4(x: T, y: T, z: T, w: T)

  /** nalgebra's `Point3<T>`. */
  datatype Point3<T> = Point3(x: T, y: T, z: T)
}
