/** The course domain: a course, and the modules that make it up. */
module CourseDomain {
  import opened GoText

  /** `id` is a UUID string and `createdBy` the id of the user who made the course. */
  datatype Course = Course(id: GoString, title: GoString, description: GoString,
                           category: GoString, createdBy: GoString, published: bool)

  /** A module belongs to the course `courseId`; `orderIndex` places it in
      the course's sequence and carries no bound or uniqueness of its own. */
  datatype Module = Module(id: GoString, courseId: GoString, title: GoString,
                           contentType: GoString, contentUrl: GoString, orderIndex: int)
}
